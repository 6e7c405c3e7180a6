/**
 * The hash map of lib/core/hashmap.h as a value: a bucket array probed linearly, and two dense,
 * insertion-ordered arrays that the buckets point into. A pointer into `keys` or `values` is the
 * slot index; a null bucket key is `Free`. The functions follow the source branch by branch; what
 * they mean is proved in HashTableLemmas.dfy, HashTableSet.dfy and HashTableRuns.dfy.
 */
module HashTable {
  import opened Wrappers

  /** The vtable entries of a key type, and the key made of zero bytes that fresh memory holds. */
  datatype KeyType<!K> = KeyType(hash: K -> nat, eq: (K, K) -> bool, zero: K)

  /** What a lookup by hash needs of a key type: `eq` is an equivalence that `hash` respects. */
  ghost predicate Lawful<K(!new)>(ty: KeyType<K>) {
    && (forall a :: ty.eq(a, a))
    && (forall a, b :: ty.eq(a, b) ==> ty.eq(b, a))
    && (forall a, b, c :: ty.eq(a, b) && ty.eq(b, c) ==> ty.eq(a, c))
    && (forall a, b :: ty.eq(a, b) ==> ty.hash(a) == ty.hash(b))
  }

  datatype Bucket = Free | Used(key: nat, value: nat)

  datatype Table<K, V> = Table(buckets: seq<Bucket>, keys: seq<K>, values: seq<V>, count: nat)

  function Cap<K, V>(t: Table<K, V>): nat { |t.buckets| }

  /** The three arrays have the same length and every bucket points into the dense arrays. */
  predicate WellFormed<K, V>(t: Table<K, V>) {
    && 0 < Cap(t) == |t.keys| == |t.values|
    && forall b :: 0 <= b < Cap(t) && t.buckets[b].Used? ==> t.buckets[b].key < Cap(t) && t.buckets[b].value < Cap(t)
  }

  /** The first bucket probed for `key`; the hash is truncated to 32 bits before the modulo. */
  function Home<K>(ty: KeyType<K>, key: K, cap: nat): (i: nat)
    requires 0 < cap
    ensures i < cap
  {
    ty.hash(key) % 0x1_0000_0000 % cap
  }

  /** Probing for `key` stops at bucket `i`: the bucket is free or holds an equal key. */
  predicate Stops<K, V>(ty: KeyType<K>, t: Table<K, V>, key: K, i: nat)
    requires WellFormed(t) && i < Cap(t)
  {
    t.buckets[i].Free? || ty.eq(t.keys[t.buckets[i].key], key)
  }

  /** The probe loop with `steps` rounds left, standing at bucket `i`; `None` is the null result. */
  function Probe<K, V>(ty: KeyType<K>, t: Table<K, V>, key: K, i: nat, steps: nat): (r: Option<nat>)
    requires WellFormed(t) && i < Cap(t)
    ensures r.Some? ==> r.value < Cap(t) && Stops(ty, t, key, r.value)
    decreases steps
  {
    if steps == 0 then None
    else if Stops(ty, t, key, i) then Some(i)
    else Probe(ty, t, key, (i + 1) % Cap(t), steps - 1)
  }

  function GetBucket<K, V>(ty: KeyType<K>, t: Table<K, V>, key: K): (r: Option<nat>)
    requires WellFormed(t)
    ensures r.Some? ==> r.value < Cap(t) && Stops(ty, t, key, r.value)
  {
    Probe(ty, t, key, Home(ty, key, Cap(t)), Cap(t))
  }

  /** A pointer to a key: the key, and the slot if the pointer goes into the `keys` array (is interned). */
  datatype KeyPtr<K> = KeyPtr(key: K, slot: Option<nat>)

  ghost predicate PointsInto<K, V>(t: Table<K, V>, p: KeyPtr<K>) {
    p.slot.Some? ==> p.slot.value < |t.keys| && t.keys[p.slot.value] == p.key
  }

  /** Probing by identity: the key pointer is compared, not the key. */
  predicate StopsAtSlot<K, V>(t: Table<K, V>, slot: Option<nat>, i: nat)
    requires WellFormed(t) && i < Cap(t)
  {
    t.buckets[i].Free? || Some(t.buckets[i].key) == slot
  }

  function ProbeSlot<K, V>(t: Table<K, V>, slot: Option<nat>, i: nat, steps: nat): (r: Option<nat>)
    requires WellFormed(t) && i < Cap(t)
    ensures r.Some? ==> r.value < Cap(t) && StopsAtSlot(t, slot, r.value)
    decreases steps
  {
    if steps == 0 then None
    else if StopsAtSlot(t, slot, i) then Some(i)
    else ProbeSlot(t, slot, (i + 1) % Cap(t), steps - 1)
  }

  function GetBucketByIntern<K, V>(ty: KeyType<K>, t: Table<K, V>, p: KeyPtr<K>): (r: Option<nat>)
    requires WellFormed(t)
    ensures r.Some? ==> r.value < Cap(t) && StopsAtSlot(t, p.slot, r.value)
  {
    ProbeSlot(t, p.slot, Home(ty, p.key, Cap(t)), Cap(t))
  }

  /** The value a bucket result stands for: null for a null or free bucket. */
  function ValueAt<K, V>(t: Table<K, V>, bucket: Option<nat>): Option<V>
    requires WellFormed(t) && (bucket.Some? ==> bucket.value < Cap(t))
  {
    if bucket.None? || t.buckets[bucket.value].Free? then None
    else Some(t.values[t.buckets[bucket.value].value])
  }

  function Get<K, V>(ty: KeyType<K>, t: Table<K, V>, key: K): Option<V>
    requires WellFormed(t)
  {
    ValueAt(t, GetBucket(ty, t, key))
  }

  function GetByIntern<K, V>(ty: KeyType<K>, t: Table<K, V>, p: KeyPtr<K>): Option<V>
    requires WellFormed(t)
  {
    ValueAt(t, GetBucketByIntern(ty, t, p))
  }

  /** Points bucket `b` at slot `i`. */
  function Point<K, V>(t: Table<K, V>, b: nat, i: nat): (t': Table<K, V>)
    requires WellFormed(t) && b < Cap(t) && i < Cap(t)
    ensures WellFormed(t')
  {
    t.(buckets := t.buckets[b := Used(i, i)])
  }

  /** The reinsertion loop over slots `i..n`; `None` when its assertion on the bucket fails. */
  function Reinsert<K, V>(ty: KeyType<K>, t: Table<K, V>, i: nat, n: nat): (r: Option<Table<K, V>>)
    requires WellFormed(t) && i <= n <= Cap(t)
    ensures r.Some? ==> WellFormed(r.value) && Cap(r.value) == Cap(t) &&
                        r.value.keys == t.keys && r.value.values == t.values && r.value.count == t.count
    decreases n - i
  {
    if i == n then Some(t)
    else
      var b := GetBucket(ty, t, t.keys[i]);
      if b.None? then None else Reinsert(ty, Point(t, b.value, i), i + 1, n)
  }

  function NewCap(cap: nat, fitCap: nat): nat {
    if cap * 2 > cap + fitCap then cap * 2 else cap + fitCap
  }

  /** The larger map before reinsertion: zeroed buckets, and the old slots followed by zeroed ones. */
  function Enlarged<K, V>(ty: KeyType<K>, zeroValue: V, t: Table<K, V>, cap: nat): (t': Table<K, V>)
    requires WellFormed(t) && Cap(t) <= cap
    ensures WellFormed(t') && Cap(t') == cap
  {
    Table(seq(cap, _ => Free),
          t.keys + seq(cap - Cap(t), _ => ty.zero),
          t.values + seq(cap - Cap(t), _ => zeroValue),
          t.count)
  }

  /**
   * The loop bound is the length of the old `keys` slice, that is the old capacity, so the spare
   * slots behind the stored keys are reinserted too.
   */
  function Grow<K, V>(ty: KeyType<K>, zeroValue: V, t: Table<K, V>, fitCap: nat): (r: Option<Table<K, V>>)
    requires WellFormed(t) && t.count <= Cap(t)
    ensures r.Some? ==> WellFormed(r.value) && r.value.count == t.count && t.count + fitCap <= Cap(r.value)
  {
    if Cap(t) - t.count > fitCap then Some(t)
    else Reinsert(ty, Enlarged(ty, zeroValue, t, NewCap(Cap(t), fitCap)), 0, Cap(t))
  }

  /** Writes the pair into the next dense slot and points bucket `b` at it. */
  function Store<K, V>(t: Table<K, V>, b: nat, key: K, value: V): (t': Table<K, V>)
    requires WellFormed(t) && b < Cap(t) && t.count < Cap(t)
    ensures WellFormed(t') && Cap(t') == Cap(t)
  {
    Table(t.buckets[b := Used(t.count, t.count)], t.keys[t.count := key], t.values[t.count := value], t.count + 1)
  }

  /** `None` when an assertion fails or the null bucket would be written to. */
  function AddKeyVal<K, V>(ty: KeyType<K>, zeroValue: V, t: Table<K, V>, key: K, value: V, bucket: Option<nat>)
    : (r: Option<Table<K, V>>)
    requires WellFormed(t) && t.count < Cap(t) && (bucket.Some? ==> bucket.value < Cap(t))
    ensures r.Some? ==> WellFormed(r.value)
  {
    if t.count >= Cap(t) - 1 then
      var grown := Grow(ty, zeroValue, t, 2);
      if grown.None? then None
      else
        var b := GetBucket(ty, grown.value, key);
        if b.None? then None
        else Some(Store(grown.value, b.value, key, value))
    else if bucket.None? then None
    else Some(Store(t, bucket.value, key, value))
  }

  function Set<K, V>(ty: KeyType<K>, zeroValue: V, t: Table<K, V>, key: K, value: V): (r: Option<Table<K, V>>)
    requires WellFormed(t) && t.count < Cap(t)
    ensures r.Some? ==> WellFormed(r.value)
  {
    var b := GetBucket(ty, t, key);
    if b.None? || t.buckets[b.value].Free? then AddKeyVal(ty, zeroValue, t, key, value, b)
    else Some(t.(values := t.values[t.buckets[b.value].value := value]))
  }

  /** A new map: zeroed memory throughout. */
  function New<K, V>(ty: KeyType<K>, zeroValue: V, cap: nat): (t: Table<K, V>)
    requires 0 < cap
    ensures WellFormed(t) && Cap(t) == cap
  {
    Table(seq(cap, _ => Free), seq(cap, _ => ty.zero), seq(cap, _ => zeroValue), 0)
  }
}
