/**
 * One `hashmap_set`. It never aborts, whatever the key type. For a lawful one it overwrites the
 * value of a key it finds and appends any other, after a growth if one slot is left; a growth
 * caused by a key unequal to zero loses the zero key.
 */
module HashTableSet {
  import opened Wrappers
  import opened HashTable
  import opened HashTableLemmas
  import opened HashTableGrowth

  // ---------------------------------------------------------------- for every key type

  lemma StoreTotal<K, V>(t: Table<K, V>, b: nat, key: K, value: V)
    requires WellFormed(t) && b < Cap(t) && t.count + 1 < Cap(t) && UsedCount(t.buckets) <= t.count + 1
    ensures Sound(Store(t, b, key, value))
  {
    UsedCountUpdate(t.buckets, b, Used(t.count, t.count));
  }

  /** The bucket fetched again after growing is not null, and there is room for the pair. */
  lemma AddSucceeds<K, V>(ty: KeyType<K>, zeroValue: V, t: Table<K, V>, key: K)
    requires Sound(t) && t.count == Cap(t) - 1
    ensures var g := Grow(ty, zeroValue, t, 2);
            g.Some? && Sound(g.value) && g.value.count + 1 < Cap(g.value) && GetBucket(ty, g.value, key).Some?
  {
    GrowTotal(ty, zeroValue, t, 2);
    var g := Grow(ty, zeroValue, t, 2).value;
    if GetBucket(ty, g, key).None? { GetBucketNone(ty, g, key); }
  }

  /** Adding a pair to any bucket succeeds; the bucket may be null only if the map grows. */
  lemma AddTotal<K, V>(ty: KeyType<K>, zeroValue: V, t: Table<K, V>, key: K, value: V, bucket: Option<nat>)
    requires Sound(t) && (if bucket.Some? then bucket.value < Cap(t) else t.count == Cap(t) - 1)
    ensures var r := AddKeyVal(ty, zeroValue, t, key, value, bucket); r.Some? && Sound(r.value)
  {
    if t.count == Cap(t) - 1 {
      AddSucceeds(ty, zeroValue, t, key);
      var g := Grow(ty, zeroValue, t, 2).value;
      StoreTotal(g, GetBucket(ty, g, key).value, key, value);
    } else {
      StoreTotal(t, bucket.value, key, value);
    }
  }

  /** Without a growth, the pair goes to the next slot, and the given bucket, whichever it is, points there. */
  lemma AddUsesBucket<K, V>(ty: KeyType<K>, zeroValue: V, t: Table<K, V>, key: K, value: V, b: nat)
    requires WellFormed(t) && t.count < Cap(t) - 1 && b < Cap(t)
    ensures var r := AddKeyVal(ty, zeroValue, t, key, value, Some(b));
            && r.Some? && r.value.count == t.count + 1
            && r.value.buckets == t.buckets[b := Used(t.count, t.count)]
            && r.value.keys == t.keys[t.count := key] && r.value.values == t.values[t.count := value]
  {
  }

  /** No set aborts: where the bucket is null, the map grows. */
  lemma SetTotal<K, V>(ty: KeyType<K>, zeroValue: V, t: Table<K, V>, key: K, value: V)
    requires Sound(t)
    ensures GetBucket(ty, t, key).None? ==> t.count == Cap(t) - 1
    ensures var r := Set(ty, zeroValue, t, key, value); r.Some? && Sound(r.value)
  {
    var b := GetBucket(ty, t, key);
    if b.None? { GetBucketNone(ty, t, key); }
    if b.None? || t.buckets[b.value].Free? { AddTotal(ty, zeroValue, t, key, value, b); }
  }

  // ---------------------------------------------------------------- for lawful key types

  lemma {:induction false} ProbeSame<K, V>(ty: KeyType<K>, t: Table<K, V>, t': Table<K, V>, q: K, i: nat, n: nat)
    requires WellFormed(t) && WellFormed(t') && t'.buckets == t.buckets && t'.keys == t.keys && i < Cap(t)
    ensures Probe(ty, t', q, i, n) == Probe(ty, t, q, i, n)
    decreases n
  {
    if n > 0 && !Stops(ty, t, q, i) { ProbeSame(ty, t, t', q, (i + 1) % Cap(t), n - 1); }
  }

  lemma SameBuckets<K(!new), V>(ty: KeyType<K>, t: Table<K, V>, t': Table<K, V>)
    requires WellFormed(t) && WellFormed(t') && t'.buckets == t.buckets && t'.keys == t.keys
    ensures forall k :: GetBucket(ty, t', k) == GetBucket(ty, t, k) && Found(ty, t', k) == Found(ty, t, k)
  {
    forall k ensures GetBucket(ty, t', k) == GetBucket(ty, t, k) && Found(ty, t', k) == Found(ty, t, k) {
      ProbeSame(ty, t, t', k, Home(ty, k, Cap(t)), Cap(t));
    }
  }

  /** Overwriting values other than the last one keeps a table at rest. */
  lemma RestsOver<K(!new), V>(ty: KeyType<K>, zeroValue: V, t: Table<K, V>, t': Table<K, V>)
    requires Rests(ty, zeroValue, t) && WellFormed(t')
    requires t'.buckets == t.buckets && t'.keys == t.keys && t'.count == t.count
    requires t'.values[Cap(t) - 1] == t.values[Cap(t) - 1]
    ensures Rests(ty, zeroValue, t')
  {
    SameBuckets(ty, t, t');
  }

  /** Setting a key that is found overwrites the value of its slot and nothing else. */
  lemma SetFound<K(!new), V>(ty: KeyType<K>, zeroValue: V, t: Table<K, V>, key: K, value: V)
    requires Lawful(ty) && Rests(ty, zeroValue, t) && Found(ty, t, key).Some?
    ensures var t' := t.(values := t.values[Found(ty, t, key).value := value]);
            && Set(ty, zeroValue, t, key, value) == Some(t') && Rests(ty, zeroValue, t')
            && forall k :: Found(ty, t', k) == Found(ty, t, k)
  {
    var s := Found(ty, t, key).value;
    var t' := t.(values := t.values[s := value]);
    if s >= t.count { BucketOfEqual(ty, t, ty.zero, key); }
    SameBuckets(ty, t, t');
    RestsOver(ty, zeroValue, t, t');
  }

  /** Storing a new pair in a table with room appends it, and files it as `FiledAt` says. */
  lemma StoreFiles<K(!new), V>(ty: KeyType<K>, t: Table<K, V>, key: K, value: V)
    requires Lawful(ty) && Sound(t) && Orderly(ty, t, t.count) && t.count + 1 < Cap(t)
    requires IsZero(ty, key) || !Stored(ty, t.keys, t.count, key)
    ensures var b := GetBucket(ty, t, key); b.Some? && FiledAt(ty, t, Store(t, b.value, key, value), t.count)
  {
    if GetBucket(ty, t, key).None? { GetBucketNone(ty, t, key); }
    var b := GetBucket(ty, t, key).value;
    File(ty, t, Store(t, b, key, value), b, t.count);
  }

  /** Storing leaves the other spare slots alone. */
  lemma StoreSpares<K, V>(ty: KeyType<K>, zeroValue: V, t: Table<K, V>, b: nat, key: K, value: V)
    requires WellFormed(t) && b < Cap(t) && t.count + 1 < Cap(t) && Spared(ty, zeroValue, t)
    requires FoundFiled(ty, t, Store(t, b, key, value), t.count)
    ensures Spared(ty, zeroValue, Store(t, b, key, value))
  {
  }

  lemma StoreRests<K(!new), V>(ty: KeyType<K>, zeroValue: V, t: Table<K, V>, key: K, value: V)
    requires Lawful(ty) && Rests(ty, zeroValue, t) && t.count + 1 < Cap(t)
    requires IsZero(ty, key) || !Stored(ty, t.keys, t.count, key)
    ensures var b := GetBucket(ty, t, key);
            && b.Some?
            && var t' := Store(t, b.value, key, value);
               Rests(ty, zeroValue, t') && FiledAt(ty, t, t', t.count)
  {
    StoreFiles(ty, t, key, value);
    var b := GetBucket(ty, t, key).value;
    StoreTotal(t, b, key, value);
    StoreSpares(ty, zeroValue, t, b, key, value);
  }

  /** The table that a new pair is written into: the table itself, or the grown one if one slot is left. */
  function Room<K, V>(ty: KeyType<K>, zeroValue: V, t: Table<K, V>): (r: Option<Table<K, V>>)
    requires WellFormed(t) && t.count < Cap(t)
    ensures r.Some? ==> WellFormed(r.value) && r.value.count == t.count
  {
    if t.count == Cap(t) - 1 then Grow(ty, zeroValue, t, 2) else Some(t)
  }

  lemma RoomRests<K(!new), V>(ty: KeyType<K>, zeroValue: V, t: Table<K, V>)
    requires Lawful(ty) && Rests(ty, zeroValue, t)
    ensures var g := Room(ty, zeroValue, t);
            && g.Some? && Rests(ty, zeroValue, g.value) && t.count + 1 < Cap(g.value)
            && g.value.keys[..t.count] == t.keys[..t.count] && g.value.values[..t.count] == t.values[..t.count]
  {
    if t.count == Cap(t) - 1 {
      GrowForm(ty, zeroValue, t, 2);
      GrowKeepsOrder(ty, zeroValue, t, 2);
    }
  }

  lemma PrefixAppended<T>(xs: seq<T>, ys: seq<T>, n: nat, x: T)
    requires n <= |xs| && n < |ys| && ys[..n] == xs[..n]
    ensures ys[n := x][..n + 1] == xs[..n] + [x]
  {
  }

  /** A key that is not found is stored in the table with room for it, in the bucket found there. */
  lemma SetStores<K, V>(ty: KeyType<K>, zeroValue: V, t: Table<K, V>, key: K, value: V)
    requires Sound(t) && Found(ty, t, key).None?
    ensures var g := Room(ty, zeroValue, t);
            && g.Some? && g.value.count < Cap(g.value) && GetBucket(ty, g.value, key).Some?
            && Set(ty, zeroValue, t, key, value) == Some(Store(g.value, GetBucket(ty, g.value, key).value, key, value))
  {
    SetTotal(ty, zeroValue, t, key, value);
    if t.count == Cap(t) - 1 { AddSucceeds(ty, zeroValue, t, key); }
  }

  lemma StillNew<K(!new), V>(ty: KeyType<K>, t: Table<K, V>, g: Table<K, V>, key: K)
    requires Lawful(ty) && Orderly(ty, t, t.count) && Found(ty, t, key).None?
    requires t.count <= |g.keys| && g.keys[..t.count] == t.keys[..t.count]
    ensures IsZero(ty, key) || !Stored(ty, g.keys, t.count, key)
  {
    if !IsZero(ty, key) {
      FoundMeaning(ty, t, t.count, key);
      assert forall s :: 0 <= s < t.count ==> g.keys[s] == g.keys[..t.count][s] == t.keys[..t.count][s] == t.keys[s];
    }
  }

  /** Setting a key that is not found appends the pair behind the stored ones, in the table with room for it. */
  lemma SetNew<K(!new), V>(ty: KeyType<K>, zeroValue: V, t: Table<K, V>, key: K, value: V)
    requires Lawful(ty) && Rests(ty, zeroValue, t) && Found(ty, t, key).None?
    ensures var g, r := Room(ty, zeroValue, t), Set(ty, zeroValue, t, key, value);
            && g.Some? && r.Some? && Rests(ty, zeroValue, r.value) && Cap(r.value) == Cap(g.value)
            && r.value.count == t.count + 1
            && r.value.keys == g.value.keys[t.count := key] && r.value.values == g.value.values[t.count := value]
            && r.value.keys[..t.count + 1] == t.keys[..t.count] + [key]
            && r.value.values[..t.count + 1] == t.values[..t.count] + [value]
            && FiledAt(ty, g.value, r.value, t.count)
  {
    SetStores(ty, zeroValue, t, key, value);
    RoomRests(ty, zeroValue, t);
    var g := Room(ty, zeroValue, t).value;
    StillNew(ty, t, g, key);
    StoreRests(ty, zeroValue, g, key, value);
    PrefixAppended(t.keys, g.keys, t.count, key);
    PrefixAppended(t.values, g.values, t.count, value);
  }

  /** Every set leaves a table at rest, growth over the stored zero key included. */
  lemma SetRests<K(!new), V>(ty: KeyType<K>, zeroValue: V, t: Table<K, V>, key: K, value: V)
    requires Lawful(ty) && Rests(ty, zeroValue, t)
    ensures var r := Set(ty, zeroValue, t, key, value); r.Some? && Rests(ty, zeroValue, r.value)
  {
    if Found(ty, t, key).Some? {
      SetFound(ty, zeroValue, t, key, value);
    } else {
      SetNew(ty, zeroValue, t, key, value);
    }
  }

  /** A growth caused by a key unequal to zero loses the zero key: the slot its bucket points at is written over. */
  lemma GrowingLosesZero<K(!new), V>(ty: KeyType<K>, zeroValue: V, t: Table<K, V>, key: K, value: V)
    requires Lawful(ty) && Rests(ty, zeroValue, t) && t.count == Cap(t) - 1
    requires Found(ty, t, key).None? && !IsZero(ty, key)
    ensures var r := Set(ty, zeroValue, t, key, value); r.Some? && Get(ty, r.value, ty.zero).None?
  {
    GrowForm(ty, zeroValue, t, 2);
    SetNew(ty, zeroValue, t, key, value);
    var t' := Set(ty, zeroValue, t, key, value).value;
    assert t'.keys[t.count] == t'.keys[..t.count + 1][t.count];
  }

  // ---------------------------------------------------------------- what every operation keeps

  ghost predicate Kept<K(!new), V>(ty: KeyType<K>, zeroValue: V, t: Table<K, V>) {
    Sound(t) && (Lawful(ty) ==> Rests(ty, zeroValue, t))
  }

  lemma SetKeeps<K(!new), V>(ty: KeyType<K>, zeroValue: V, t: Table<K, V>, key: K, value: V)
    requires Kept(ty, zeroValue, t)
    ensures var r := Set(ty, zeroValue, t, key, value); r.Some? && Kept(ty, zeroValue, r.value)
  {
    SetTotal(ty, zeroValue, t, key, value);
    if Lawful(ty) { SetRests(ty, zeroValue, t, key, value); }
  }

  /**
   * For a key type whose hash does not respect equality, a growth with several spare slots may give each
   * its own bucket.
   */
  lemma GrowKeeps<K(!new), V>(ty: KeyType<K>, zeroValue: V, t: Table<K, V>, fitCap: nat)
    requires Kept(ty, zeroValue, t) && Cap(t) - t.count <= fitCap
    ensures var r := Grow(ty, zeroValue, t, fitCap);
            r.Some? && (Lawful(ty) || t.count == Cap(t) - 1 ==> Kept(ty, zeroValue, r.value))
  {
    GrowTotal(ty, zeroValue, t, fitCap);
    if Lawful(ty) { GrowForm(ty, zeroValue, t, fitCap); }
  }
}
