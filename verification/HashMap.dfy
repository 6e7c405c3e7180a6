/**
 * The hash map as the object the library updates in place. Each method does to the three arrays and
 * the count what the function of the same name in HashTable.dfy does to the table they hold.
 */
module HashMaps {
  import opened Wrappers
  import HashTable
  import opened HashTableLemmas
  import opened HashTableGrowth
  import opened HashTableSet

  type Bucket = HashTable.Bucket
  type KeyType<!K> = HashTable.KeyType<K>
  type KeyPtr<K> = HashTable.KeyPtr<K>
  type Table<K, V> = HashTable.Table<K, V>

  class HashMap<K(!new), V> {
    const ty: KeyType<K>
    const zeroValue: V

    var buckets: array<Bucket>
    var keys: array<K>
    var values: array<V>
    var count: nat

    /** The three arrays do not overlap. */
    ghost predicate Separate()
      reads this
    {
      && (buckets as object) != (keys as object)
      && (buckets as object) != (values as object)
      && (keys as object) != (values as object)
    }

    ghost function Arrays(): set<object>
      reads this
    {
      {buckets as object, keys as object, values as object}
    }

    ghost function Model(): Table<K, V>
      reads this, buckets, keys, values
    {
      HashTable.Table(buckets[..], keys[..], values[..], count)
    }

    ghost predicate Valid()
      reads this, buckets, keys, values
    {
      Separate() && Kept(ty, zeroValue, Model())
    }

    constructor (ty: KeyType<K>, zeroValue: V, cap: nat)
      requires 0 < cap
      ensures this.ty == ty && this.zeroValue == zeroValue
      ensures Valid() && fresh(Arrays())
      ensures Model() == HashTable.New(ty, zeroValue, cap)
    {
      this.ty := ty;
      this.zeroValue := zeroValue;
      buckets := new Bucket[cap](_ => HashTable.Free);
      keys := new K[cap](_ => ty.zero);
      values := new V[cap](_ => zeroValue);
      count := 0;
      new;
      assert buckets[..] == seq(cap, _ => HashTable.Free);
      assert keys[..] == seq(cap, _ => ty.zero);
      assert values[..] == seq(cap, _ => zeroValue);
      NewRests(ty, zeroValue, cap);
    }

    method GetBucket(key: K) returns (r: Option<nat>)
      requires HashTable.WellFormed(Model())
      ensures r == HashTable.GetBucket(ty, Model(), key)
    {
      ghost var t := Model();
      var hash := ty.hash(key) % 0x1_0000_0000;
      var ind: nat := hash % buckets.Length;
      if buckets[ind].Free? {
        return Some(ind);
      }
      for i := 0 to buckets.Length
        invariant ind < buckets.Length
        invariant HashTable.GetBucket(ty, t, key) == HashTable.Probe(ty, t, key, ind, buckets.Length - i)
      {
        assert buckets[ind] == t.buckets[ind];
        if buckets[ind].Free? || ty.eq(keys[buckets[ind].key], key) {
          return Some(ind);
        }
        ind := (ind + 1) % buckets.Length;
      }
      return None;
    }

    method GetBucketByIntern(p: KeyPtr<K>) returns (r: Option<nat>)
      requires HashTable.WellFormed(Model()) && HashTable.PointsInto(Model(), p)
      ensures r == HashTable.GetBucketByIntern(ty, Model(), p)
    {
      ghost var t := Model();
      var hash := ty.hash(p.key) % 0x1_0000_0000;
      var ind: nat := hash % buckets.Length;
      if buckets[ind].Free? {
        return Some(ind);
      }
      for i := 0 to buckets.Length
        invariant ind < buckets.Length
        invariant HashTable.GetBucketByIntern(ty, t, p) == HashTable.ProbeSlot(t, p.slot, ind, buckets.Length - i)
      {
        assert buckets[ind] == t.buckets[ind];
        if buckets[ind].Free? || Some(buckets[ind].key) == p.slot {
          return Some(ind);
        }
        ind := (ind + 1) % buckets.Length;
      }
      return None;
    }

    method Get(key: K) returns (r: Option<V>)
      requires Valid()
      ensures r == HashTable.Get(ty, Model(), key)
      ensures HashTable.Lawful(ty) && !IsZero(ty, key) ==>
                && (forall s :: 0 <= s < count && ty.eq(keys[s], key) ==> r == Some(values[s]))
                && (r.None? <==> forall s :: 0 <= s < count ==> !ty.eq(keys[s], key))
    {
      var bucket := GetBucket(key);
      if HashTable.Lawful(ty) && !IsZero(ty, key) { FoundMeaning(ty, Model(), count, key); }
      if bucket.None? || buckets[bucket.value].Free? {
        return None;
      }
      return Some(values[buckets[bucket.value].value]);
    }

    method GetByIntern(p: KeyPtr<K>) returns (r: Option<V>)
      requires Valid() && HashTable.PointsInto(Model(), p)
      ensures r == HashTable.GetByIntern(ty, Model(), p)
      ensures HashTable.Lawful(ty) && !IsZero(ty, p.key) && p.slot.Some? && p.slot.value < count ==>
              r == Some(values[p.slot.value])
    {
      var bucket := GetBucketByIntern(p);
      if HashTable.Lawful(ty) && !IsZero(ty, p.key) && p.slot.Some? && p.slot.value < count {
        InternExactlyWhen(ty, Model(), count, p);
      }
      if bucket.None? || buckets[bucket.value].Free? {
        return None;
      }
      return Some(values[buckets[bucket.value].value]);
    }

    /** The reinsertion loop, run on the larger map; the bucket it asks for is never null. */
    method ReinsertSlots(n: nat)
      requires Separate() && HashTable.WellFormed(Model()) && n <= keys.Length
      requires HashTable.Reinsert(ty, Model(), 0, n).Some?
      modifies buckets
      ensures Some(Model()) == HashTable.Reinsert(ty, old(Model()), 0, n)
    {
      ghost var start := Model();
      ghost var t := start;
      for i := 0 to n
        invariant t == Model() && HashTable.WellFormed(t) && |t.buckets| == |start.buckets|
        invariant HashTable.Reinsert(ty, start, 0, n) == HashTable.Reinsert(ty, t, i, n)
      {
        var bucket := GetBucket(keys[i]);
        assert bucket.Some?;
        buckets[bucket.value] := HashTable.Used(i, i);
        t := HashTable.Point(t, bucket.value, i);
        assert buckets[..] == t.buckets;
      }
    }

    /** The larger map before reinsertion, with the dense arrays copied. */
    method Enlarge(newCap: nat) returns (outMap: HashMap<K, V>)
      requires Valid() && keys.Length <= newCap
      ensures fresh(outMap) && fresh(outMap.Arrays()) && outMap.Separate() && outMap.ty == ty
      ensures outMap.Model() == HashTable.Enlarged(ty, zeroValue, Model(), newCap)
    {
      outMap := new HashMap(ty, zeroValue, newCap);
      outMap.count := count;
      forall i | 0 <= i < keys.Length { outMap.keys[i] := keys[i]; }
      forall i | 0 <= i < values.Length { outMap.values[i] := values[i]; }
      assert outMap.keys[..] == keys[..] + seq(newCap - keys.Length, _ => ty.zero);
      assert outMap.values[..] == values[..] + seq(newCap - values.Length, _ => zeroValue);
    }

    method Grow(fitCap: nat)
      requires Valid()
      modifies this
      ensures Separate() && fresh(Arrays() - old(Arrays()))
      ensures Some(Model()) == HashTable.Grow(ty, zeroValue, old(Model()), fitCap)
      ensures HashTable.Lawful(ty) || old(buckets.Length - count) == 1 ==> Valid()
    {
      ghost var before := Model();
      if buckets.Length - count > fitCap {
        return;
      }
      var newCap := if buckets.Length * 2 > buckets.Length + fitCap then buckets.Length * 2
          else buckets.Length + fitCap;
      GrowKeeps(ty, zeroValue, before, fitCap);
      var outMap := Enlarge(newCap);
      outMap.ReinsertSlots(keys.Length);
      buckets, keys, values := outMap.buckets, outMap.keys, outMap.values;
    }

    /** Writes the pair into the next dense slot and points bucket `b` at it. */
    method StoreAt(b: nat, key: K, value: V)
      requires Separate() && HashTable.WellFormed(Model()) && b < buckets.Length && count < keys.Length
      modifies this`count, buckets, keys, values
      ensures Model() == HashTable.Store(old(Model()), b, key, value)
    {
      buckets[b] := HashTable.Used(count, count);
      keys[count] := key;
      values[count] := value;
      count := count + 1;
    }

    /** The bucket to add a key in: the one given, or the one found again after a growth. */
    method Target(key: K, bucket: Option<nat>) returns (target: nat)
      requires Valid() && (if bucket.Some? then bucket.value < buckets.Length else count == buckets.Length - 1)
      modifies this
      ensures Separate() && fresh(Arrays() - old(Arrays())) && HashTable.WellFormed(Model())
      ensures count == old(count) && count + 1 < buckets.Length && target < buckets.Length
      ensures var t := old(Model());
              if t.count == HashTable.Cap(t) - 1 then
                && Some(Model()) == HashTable.Grow(ty, zeroValue, t, 2)
                && Some(target) == HashTable.GetBucket(ty, Model(), key)
              else Model() == t && Some(target) == bucket
    {
      var b := bucket;
      if count >= buckets.Length - 1 {
        AddSucceeds(ty, zeroValue, Model(), key);
        Grow(2);
        b := GetBucket(key);
        assert b.Some?;
      }
      target := b.value;
    }

    /** `bucket` is any bucket, as `hashmap_set` passes the one found; a null one needs a map that grows. */
    method AddKeyVal(key: K, value: V, bucket: Option<nat>)
      requires Valid() && (if bucket.Some? then bucket.value < buckets.Length else count == buckets.Length - 1)
      modifies this, buckets, keys, values
      ensures Separate() && fresh(Arrays() - old(Arrays()))
      ensures Some(Model()) == HashTable.AddKeyVal(ty, zeroValue, old(Model()), key, value, bucket)
    {
      var target := Target(key, bucket);
      StoreAt(target, key, value);
    }

    method Set(key: K, value: V)
      requires Valid()
      modifies this, buckets, keys, values
      ensures Valid() && fresh(Arrays() - old(Arrays()))
      ensures Some(Model()) == HashTable.Set(ty, zeroValue, old(Model()), key, value)
    {
      ghost var before := Model();
      SetTotal(ty, zeroValue, before, key, value);
      SetKeeps(ty, zeroValue, before, key, value);
      var bucket := GetBucket(key);
      if bucket.None? || buckets[bucket.value].Free? {
        AddKeyVal(key, value, bucket);
        return;
      }
      values[buckets[bucket.value].value] := value;
      assert Model() == before.(values := before.values[before.buckets[bucket.value].value := value]);
    }
  }
}
