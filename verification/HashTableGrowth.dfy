/**
 * Growth: the reinsertion loop never meets a null bucket, whatever the key type, and for a lawful
 * one it changes exactly one lookup, that of the all-zero key, because it also reinserts spare slots.
 */
module HashTableGrowth {
  import opened Wrappers
  import opened HashTable
  import opened HashTableLemmas

  // ---------------------------------------------------------------- for every key type

  /** Between calls there is a spare slot, and at most one bucket more is occupied than keys are stored. */
  ghost predicate Sound<K, V>(t: Table<K, V>) {
    WellFormed(t) && t.count < Cap(t) && UsedCount(t.buckets) <= t.count + 1
  }

  lemma {:induction false} ReinsertTotal<K, V>(ty: KeyType<K>, t: Table<K, V>, i: nat, n: nat)
    requires WellFormed(t) && i <= n < Cap(t) && UsedCount(t.buckets) <= i
    ensures var r := Reinsert(ty, t, i, n); r.Some? && UsedCount(r.value.buckets) <= n
    decreases n - i
  {
    if i < n {
      var b := GetBucket(ty, t, t.keys[i]);
      if b.None? { GetBucketNone(ty, t, t.keys[i]); }
      UsedCountUpdate(t.buckets, b.value, Used(i, i));
      ReinsertTotal(ty, Point(t, b.value, i), i + 1, n);
    }
  }

  /** A growth never fails: every key is reinserted in a bucket, equal keys with unequal hashes included. */
  lemma GrowTotal<K, V>(ty: KeyType<K>, zeroValue: V, t: Table<K, V>, fitCap: nat)
    requires WellFormed(t) && t.count <= Cap(t) <= t.count + fitCap
    ensures var r := Grow(ty, zeroValue, t, fitCap);
            r.Some? && Cap(r.value) == NewCap(Cap(t), fitCap) > Cap(t) && UsedCount(r.value.buckets) <= Cap(t)
  {
    UsedCountFresh(NewCap(Cap(t), fitCap));
    ReinsertTotal(ty, Enlarged(ty, zeroValue, t, NewCap(Cap(t), fitCap)), 0, Cap(t));
  }

  // ---------------------------------------------------------------- reinsertion

  /** The number of keys unequal to zero in the first `n` slots. */
  function Others<K>(ty: KeyType<K>, keys: seq<K>, n: nat): (c: nat)
    requires n <= |keys|
    ensures c <= n
  {
    if n == 0 then 0 else Others(ty, keys, n - 1) + if IsZero(ty, keys[n - 1]) then 0 else 1
  }

  /** The last of the first `n` slots with a key equal to zero. */
  function LastZero<K>(ty: KeyType<K>, keys: seq<K>, n: nat): (r: Option<nat>)
    requires n <= |keys|
    ensures r.Some? ==> r.value < n
  {
    if n == 0 then None else if IsZero(ty, keys[n - 1]) then Some(n - 1) else LastZero(ty, keys, n - 1)
  }

  lemma {:induction false} OthersSame<K>(ty: KeyType<K>, keys: seq<K>, keys': seq<K>, n: nat)
    requires n <= |keys| && n <= |keys'| && forall s :: 0 <= s < n ==> keys'[s] == keys[s]
    ensures Others(ty, keys', n) == Others(ty, keys, n) && LastZero(ty, keys', n) == LastZero(ty, keys, n)
  {
    if n > 0 { OthersSame(ty, keys, keys', n - 1); }
  }

  lemma {:induction false} OthersSpare<K>(ty: KeyType<K>, keys: seq<K>, m: nat, n: nat)
    requires m <= n <= |keys| && forall s :: m <= s < n ==> IsZero(ty, keys[s])
    ensures Others(ty, keys, n) == Others(ty, keys, m)
    decreases n
  {
    if m < n { OthersSpare(ty, keys, m, n - 1); }
  }

  /**
   * The table files exactly the first `n` slots: one bucket for each other key, and one for all zero keys,
   * at the last of them.
   */
  ghost predicate Filled<K, V>(ty: KeyType<K>, t: Table<K, V>, n: nat) {
    && Orderly(ty, t, n)
    && Found(ty, t, ty.zero) == LastZero(ty, t.keys, n)
    && UsedCount(t.buckets) == Others(ty, t.keys, n) + if LastZero(ty, t.keys, n).Some? then 1 else 0
  }

  /** The key of slot `i` has a bucket, since fewer than all are occupied, and is new if it is unequal to zero. */
  lemma FillReady<K(!new), V>(ty: KeyType<K>, t: Table<K, V>, i: nat)
    requires Lawful(ty) && Filled(ty, t, i) && i + 1 < Cap(t) && OthersDistinct(ty, t.keys, i + 1)
    ensures GetBucket(ty, t, t.keys[i]).Some?
    ensures IsZero(ty, t.keys[i]) || !Stored(ty, t.keys, i, t.keys[i])
  {
    var key := t.keys[i];
    if GetBucket(ty, t, key).None? { GetBucketNone(ty, t, key); }
    assert forall s :: 0 <= s < i && IsZero(ty, t.keys[s]) && ty.eq(t.keys[s], key) ==> IsZero(ty, key);
  }

  lemma FillStep<K(!new), V>(ty: KeyType<K>, t: Table<K, V>, i: nat)
    requires Lawful(ty) && Filled(ty, t, i) && i + 1 < Cap(t) && OthersDistinct(ty, t.keys, i + 1)
    ensures var b := GetBucket(ty, t, t.keys[i]); b.Some? && Filled(ty, Point(t, b.value, i), i + 1)
  {
    FillReady(ty, t, i);
    var b := GetBucket(ty, t, t.keys[i]).value;
    File(ty, t, Point(t, b, i), b, i);
  }

  lemma FewerDistinct<K>(ty: KeyType<K>, keys: seq<K>, keys': seq<K>, m: nat, n: nat)
    requires m <= n <= |keys| && m <= |keys'| && OthersDistinct(ty, keys, n)
    requires forall s :: 0 <= s < m ==> keys'[s] == keys[s]
    ensures OthersDistinct(ty, keys', m)
  {
  }

  /** The last round of the loop. */
  lemma {:induction false} ReinsertLast<K, V>(ty: KeyType<K>, t: Table<K, V>, i: nat, n: nat)
    requires WellFormed(t) && i < n <= Cap(t) && Reinsert(ty, t, i, n - 1).Some?
    ensures var x := Reinsert(ty, t, i, n - 1).value;
            var b := GetBucket(ty, x, x.keys[n - 1]);
            b.Some? ==> Reinsert(ty, t, i, n) == Some(Point(x, b.value, n - 1))
    decreases n - i
  {
    if i < n - 1 { ReinsertLast(ty, Point(t, GetBucket(ty, t, t.keys[i]).value, i), i + 1, n); }
  }

  /** Reinserting slots whose other keys are distinct files each of them; the null-bucket assertion never fires. */
  lemma {:induction false} ReinsertFills<K(!new), V>(ty: KeyType<K>, t: Table<K, V>, i: nat, n: nat)
    requires Lawful(ty) && Filled(ty, t, i) && i <= n < Cap(t) && OthersDistinct(ty, t.keys, n)
    ensures var r := Reinsert(ty, t, i, n); r.Some? && Filled(ty, r.value, n)
    decreases n
  {
    if i < n {
      FewerDistinct(ty, t.keys, t.keys, n - 1, n);
      ReinsertFills(ty, t, i, n - 1);
      ReinsertLast(ty, t, i, n);
      var x := Reinsert(ty, t, i, n - 1).value;
      FewerDistinct(ty, t.keys, x.keys, n, n);
      FillStep(ty, x, n - 1);
    }
  }

  /** A table without occupied buckets files no slot. */
  lemma NothingFilled<K, V>(ty: KeyType<K>, t: Table<K, V>)
    requires WellFormed(t) && t.buckets == seq(Cap(t), _ => Free)
    ensures Filled(ty, t, 0)
  {
    UsedCountFresh(Cap(t));
  }

  /** What the loop makes of the enlarged table when it reinserts the first `n` slots. */
  lemma RehashForm<K(!new), V>(ty: KeyType<K>, zeroValue: V, t: Table<K, V>, n: nat, cap: nat)
    requires Lawful(ty) && WellFormed(t) && n <= Cap(t) < cap && OthersDistinct(ty, t.keys, n)
    ensures var r := Reinsert(ty, Enlarged(ty, zeroValue, t, cap), 0, n);
            && r.Some? && Filled(ty, r.value, n)
            && Others(ty, r.value.keys, n) == Others(ty, t.keys, n)
            && LastZero(ty, r.value.keys, n) == LastZero(ty, t.keys, n)
  {
    var t0 := Enlarged(ty, zeroValue, t, cap);
    NothingFilled(ty, t0);
    OthersSame(ty, t.keys, t0.keys, n);
    FewerDistinct(ty, t.keys, t0.keys, n, n);
    ReinsertFills(ty, t0, 0, n);
  }

  // ---------------------------------------------------------------- tables at rest

  /** The slots behind the stored ones hold zero keys, the last one zeroed memory that no bucket points at. */
  ghost predicate Spared<K, V>(ty: KeyType<K>, zeroValue: V, t: Table<K, V>)
    requires WellFormed(t)
  {
    && (forall s :: t.count <= s < Cap(t) ==> t.keys[s] == ty.zero)
    && t.values[Cap(t) - 1] == zeroValue
    && (Found(ty, t, ty.zero).Some? ==> Found(ty, t, ty.zero).value < Cap(t) - 1)
  }

  /** Between calls, for a lawful key type: the stored slots are filed, the others are spare. */
  ghost predicate Rests<K, V>(ty: KeyType<K>, zeroValue: V, t: Table<K, V>) {
    Sound(t) && Orderly(ty, t, t.count) && Spared(ty, zeroValue, t)
  }

  lemma NewRests<K, V>(ty: KeyType<K>, zeroValue: V, cap: nat)
    requires 0 < cap
    ensures var t := New(ty, zeroValue, cap);
            Rests(ty, zeroValue, t) && UsedCount(t.buckets) == 0 && forall k :: Found(ty, t, k).None?
  {
    UsedCountFresh(cap);
  }

  /** The spare slots hold zero keys, so a table that files them files the stored ones. */
  lemma OrderlyShrink<K, V>(ty: KeyType<K>, t: Table<K, V>, m: nat, n: nat)
    requires Orderly(ty, t, n) && m <= n && forall s :: m <= s < n ==> IsZero(ty, t.keys[s])
    ensures Orderly(ty, t, m)
  {
  }

  /** `r` has the slots of `t`, then zeroed ones. */
  ghost predicate Extends<K, V>(ty: KeyType<K>, zeroValue: V, t: Table<K, V>, r: Table<K, V>) {
    && WellFormed(t) && WellFormed(r) && Cap(t) < Cap(r) && r.count == t.count
    && (forall s :: 0 <= s < Cap(t) ==> r.keys[s] == t.keys[s] && r.values[s] == t.values[s])
    && (forall s :: Cap(t) <= s < Cap(r) ==> r.keys[s] == ty.zero && r.values[s] == zeroValue)
  }

  /** A larger table with all old slots filed is at rest, and leads the zero key to the last of them. */
  lemma FilledRests<K(!new), V>(ty: KeyType<K>, zeroValue: V, t: Table<K, V>, r: Table<K, V>)
    requires Lawful(ty) && Rests(ty, zeroValue, t) && Extends(ty, zeroValue, t, r) && Filled(ty, r, Cap(t))
    ensures Rests(ty, zeroValue, r) && Found(ty, r, ty.zero) == Some(Cap(t) - 1)
    ensures UsedCount(r.buckets) == Others(ty, t.keys, t.count) + 1
  {
    var m, n := t.count, Cap(t);
    assert forall s :: m <= s < n ==> r.keys[s] == ty.zero && IsZero(ty, r.keys[s]);
    OthersSpare(ty, r.keys, m, n);
    OthersSame(ty, t.keys, r.keys, m);
    OrderlyShrink(ty, r, m, n);
  }

  lemma SparesDistinct<K(!new), V>(ty: KeyType<K>, zeroValue: V, t: Table<K, V>)
    requires Lawful(ty) && Rests(ty, zeroValue, t)
    ensures OthersDistinct(ty, t.keys, Cap(t))
  {
    forall i, j | 0 <= i < j < Cap(t) && !IsZero(ty, t.keys[i]) ensures !ty.eq(t.keys[i], t.keys[j]) {
      assert i < t.count;
      assert t.count <= j ==> t.keys[j] == ty.zero;
    }
  }

  /**
   * A growth that happens files the stored keys unequal to zero, and leads the zero key to the last
   * slot of the old table, a spare one, whether it was stored or not.
   */
  lemma GrowForm<K(!new), V>(ty: KeyType<K>, zeroValue: V, t: Table<K, V>, fitCap: nat)
    requires Lawful(ty) && Rests(ty, zeroValue, t) && Cap(t) - t.count <= fitCap
    ensures var r := Grow(ty, zeroValue, t, fitCap);
            && r.Some? && Rests(ty, zeroValue, r.value) && Extends(ty, zeroValue, t, r.value)
            && Cap(r.value) == NewCap(Cap(t), fitCap)
            && Found(ty, r.value, ty.zero) == Some(Cap(t) - 1)
            && UsedCount(r.value.buckets) == Others(ty, t.keys, t.count) + 1
  {
    SparesDistinct(ty, zeroValue, t);
    RehashForm(ty, zeroValue, t, Cap(t), NewCap(Cap(t), fitCap));
    FilledRests(ty, zeroValue, t, Grow(ty, zeroValue, t, fitCap).value);
  }

  /** A growth raises the capacity and keeps count, keys and values in order. */
  lemma GrowKeepsOrder<K, V>(ty: KeyType<K>, zeroValue: V, t: Table<K, V>, fitCap: nat)
    requires WellFormed(t) && t.count <= Cap(t) <= t.count + fitCap
    ensures var r := Grow(ty, zeroValue, t, fitCap);
            && r.Some? && Cap(t) < Cap(r.value) && r.value.count == t.count
            && r.value.keys[..t.count] == t.keys[..t.count] && r.value.values[..t.count] == t.values[..t.count]
  {
    GrowTotal(ty, zeroValue, t, fitCap);
  }

  /** Two tables that file the same slots find the keys unequal to zero in the same ones. */
  lemma FoundSame<K(!new), V>(ty: KeyType<K>, t: Table<K, V>, t': Table<K, V>, m: nat, k: K)
    requires Lawful(ty) && Orderly(ty, t, m) && Orderly(ty, t', m) && !IsZero(ty, k)
    requires forall s :: 0 <= s < m ==> t'.keys[s] == t.keys[s]
    ensures Found(ty, t', k) == Found(ty, t, k)
    ensures Found(ty, t, k).Some? ==> Found(ty, t, k).value < m
  {
    FoundMeaning(ty, t, m, k);
    FoundMeaning(ty, t', m, k);
    if Stored(ty, t.keys, m, k) {
      var s :| 0 <= s < m && ty.eq(t.keys[s], k);
      assert ty.eq(t'.keys[s], k);
    } else {
      assert !Stored(ty, t'.keys, m, k);
    }
  }

  lemma GetSame<K(!new), V>(ty: KeyType<K>, t: Table<K, V>, t': Table<K, V>, m: nat, k: K)
    requires Lawful(ty) && Orderly(ty, t, m) && Orderly(ty, t', m) && !IsZero(ty, k)
    requires forall s :: 0 <= s < m ==> t'.keys[s] == t.keys[s] && t'.values[s] == t.values[s]
    ensures Get(ty, t', k) == Get(ty, t, k)
  {
    FoundSame(ty, t, t', m, k);
    GetFound(ty, t, m, k);
    GetFound(ty, t', m, k);
  }

  /** A zero key is looked up where zero is. */
  lemma GetZero<K(!new), V>(ty: KeyType<K>, t: Table<K, V>, m: nat, k: K)
    requires Lawful(ty) && Orderly(ty, t, m) && IsZero(ty, k)
    ensures Get(ty, t, k) == match Found(ty, t, ty.zero) case None => None case Some(s) => Some(t.values[s])
  {
    BucketOfEqual(ty, t, ty.zero, k);
    GetFound(ty, t, m, k);
  }

  lemma GrowKeepsOthers<K(!new), V>(ty: KeyType<K>, zeroValue: V, t: Table<K, V>, fitCap: nat, k: K)
    requires Lawful(ty) && Rests(ty, zeroValue, t) && Cap(t) - t.count <= fitCap && !IsZero(ty, k)
    ensures var r := Grow(ty, zeroValue, t, fitCap); r.Some? && Get(ty, r.value, k) == Get(ty, t, k)
  {
    GrowForm(ty, zeroValue, t, fitCap);
    GetSame(ty, t, Grow(ty, zeroValue, t, fitCap).value, t.count, k);
  }

  lemma LastSlotZeroed<K, V>(ty: KeyType<K>, zeroValue: V, t: Table<K, V>, r: Table<K, V>)
    requires WellFormed(t) && Spared(ty, zeroValue, t) && Extends(ty, zeroValue, t, r)
    ensures r.values[Cap(t) - 1] == zeroValue
  {
  }

  lemma ZeroYields<K(!new), V>(ty: KeyType<K>, zeroValue: V, t: Table<K, V>, r: Table<K, V>, k: K)
    requires Lawful(ty) && WellFormed(t) && Spared(ty, zeroValue, t) && Extends(ty, zeroValue, t, r)
    requires Orderly(ty, r, r.count) && Found(ty, r, ty.zero) == Some(Cap(t) - 1) && IsZero(ty, k)
    ensures Get(ty, r, k) == Some(zeroValue)
  {
    LastSlotZeroed(ty, zeroValue, t, r);
    GetZero(ty, r, r.count, k);
  }

  lemma GrowZeroes<K(!new), V>(ty: KeyType<K>, zeroValue: V, t: Table<K, V>, fitCap: nat, k: K)
    requires Lawful(ty) && Rests(ty, zeroValue, t) && Cap(t) - t.count <= fitCap && IsZero(ty, k)
    ensures var r := Grow(ty, zeroValue, t, fitCap); r.Some? && Get(ty, r.value, k) == Some(zeroValue)
  {
    GrowForm(ty, zeroValue, t, fitCap);
    ZeroYields(ty, zeroValue, t, Grow(ty, zeroValue, t, fitCap).value, k);
  }

  /** A growth keeps the lookup of every key except the zero key, which afterwards yields a zeroed value. */
  lemma GrowMeaning<K(!new), V>(ty: KeyType<K>, zeroValue: V, t: Table<K, V>, fitCap: nat, k: K)
    requires Lawful(ty) && Rests(ty, zeroValue, t) && Cap(t) - t.count <= fitCap
    ensures var r := Grow(ty, zeroValue, t, fitCap);
            r.Some? && Get(ty, r.value, k) == if IsZero(ty, k) then Some(zeroValue) else Get(ty, t, k)
  {
    if IsZero(ty, k) { GrowZeroes(ty, zeroValue, t, fitCap, k); } else { GrowKeepsOthers(ty, zeroValue, t, fitCap, k); }
  }

  /**
   * Reinserting the stored slots alone would keep every lookup, if the zero key's leads to the last slot
   * that stores it.
   */
  lemma RehashKeepsLookups<K(!new), V>(ty: KeyType<K>, zeroValue: V, t: Table<K, V>, cap: nat, k: K)
    requires Lawful(ty) && Rests(ty, zeroValue, t) && Cap(t) < cap
    requires Found(ty, t, ty.zero) == LastZero(ty, t.keys, t.count)
    ensures var r := Reinsert(ty, Enlarged(ty, zeroValue, t, cap), 0, t.count);
            r.Some? && Get(ty, r.value, k) == Get(ty, t, k)
  {
    RehashForm(ty, zeroValue, t, t.count, cap);
    var r := Reinsert(ty, Enlarged(ty, zeroValue, t, cap), 0, t.count).value;
    if IsZero(ty, k) {
      GetZero(ty, r, t.count, k);
      GetZero(ty, t, t.count, k);
    } else {
      GetSame(ty, t, r, t.count, k);
    }
  }
}
