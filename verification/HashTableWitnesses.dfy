/**
 * Short runs that go wrong, for every lawful key type with enough keys: the zero key lost, stored
 * twice, and found without having been set, and a table with every bucket occupied.
 */
module HashTableWitnesses {
  import opened Wrappers
  import opened HashTable
  import opened HashTableLemmas
  import opened HashTableGrowth
  import opened HashTableHistory
  import opened HashTableRuns
  import opened HashTableBuckets

  /** The history with one more set. */
  lemma AfterPut<K(!new), V>(ty: KeyType<K>, zeroValue: V, cap: nat, ops: seq<Op<K, V>>, key: K, v: V)
    requires 0 < cap
    ensures var s := OutlineOf(ty, zeroValue, cap, ops);
            OutlineOf(ty, zeroValue, cap, ops + [Put(key, v)]) ==
              Next(zeroValue, s, IsZero(ty, key), IsFound(ty, ops, s, key), v)
    ensures forall k :: LastPut(ty, ops + [Put(key, v)], k) == if ty.eq(key, k) then Some(v) else LastPut(ty, ops, k)
    ensures FirstKeys(ty, ops + [Put(key, v)]) ==
              FirstKeys(ty, ops) + if LastPut(ty, ops, key).Some? then [] else [key]
  {
    assert (ops + [Put(key, v)])[..|ops|] == ops;
  }

  // ---------------------------------------------------------------- the zero key

  /** Two sets on a map of capacity two: the second makes it grow over the zero key. */
  function Losing<K, V>(ty: KeyType<K>, a: K, v: V, w: V): seq<Op<K, V>> {
    [Put(ty.zero, v)] + [Put(a, w)]
  }

  lemma OneZero<K(!new), V>(ty: KeyType<K>, zeroValue: V, v: V)
    requires IsZero(ty, ty.zero)
    ensures var ops := [Put(ty.zero, v)];
            && OutlineOf(ty, zeroValue, 2, ops) == Outline(2, 1, 0, 1, Some(Spot(0, v)))
            && (forall k :: LastPut(ty, ops, k) == if ty.eq(ty.zero, k) then Some(v) else None)
            && FirstKeys(ty, ops) == [ty.zero]
  {
    AfterPut(ty, zeroValue, 2, [], ty.zero, v);
    assert [] + [Put(ty.zero, v)] == [Put(ty.zero, v)];
  }

  lemma LosingOutline<K(!new), V>(ty: KeyType<K>, zeroValue: V, a: K, v: V, w: V)
    requires IsZero(ty, ty.zero) && !IsZero(ty, a) && !ty.eq(a, ty.zero)
    ensures var ops := Losing(ty, a, v, w);
            && OutlineOf(ty, zeroValue, 2, ops) == Outline(4, 2, 1, 2, None)
            && LastPut(ty, ops, ty.zero) == Some(v) && FirstKeys(ty, ops) == [ty.zero, a]
  {
    OneZero(ty, zeroValue, v);
    AfterPut(ty, zeroValue, 2, [Put(ty.zero, v)], a, w);
  }

  /** The zero key is lost: the map no longer agrees with its history. */
  lemma ZeroKeyLost<K(!new), V>(ty: KeyType<K>, zeroValue: V, a: K, v: V, w: V)
    requires Lawful(ty) && !IsZero(ty, a)
    ensures Agrees(ty, zeroValue, 2, [Put(ty.zero, v)]) && !Agrees(ty, zeroValue, 2, Losing(ty, a, v, w))
  {
    OneZero(ty, zeroValue, v);
    LosingOutline(ty, zeroValue, a, v, w);
    AgreesExactlyWhen(ty, zeroValue, 2, [Put(ty.zero, v)]);
    AgreesExactlyWhen(ty, zeroValue, 2, Losing(ty, a, v, w));
  }

  lemma TwiceOutline<K(!new), V>(ty: KeyType<K>, zeroValue: V, a: K, v: V, w: V, u: V)
    requires IsZero(ty, ty.zero) && !IsZero(ty, a) && !ty.eq(a, ty.zero)
    ensures var ops := Losing(ty, a, v, w) + [Put(ty.zero, u)];
            && OutlineOf(ty, zeroValue, 2, ops) == Outline(4, 3, 1, 3, Some(Spot(2, u)))
            && FirstKeys(ty, ops) == [ty.zero, a]
  {
    LosingOutline(ty, zeroValue, a, v, w);
    AfterPut(ty, zeroValue, 2, Losing(ty, a, v, w), ty.zero, u);
  }

  /** Iteration that lists the history visits as many slots as it has keys. */
  lemma IteratesLength<K(!new), V>(ty: KeyType<K>, zeroValue: V, cap: nat, ops: seq<Op<K, V>>)
    requires Lawful(ty) && 0 < cap && Iterates(ty, zeroValue, cap, ops)
    ensures OutlineOf(ty, zeroValue, cap, ops).count == |FirstKeys(ty, ops)|
  {
    RunTracks(ty, zeroValue, cap, ops);
  }

  /** Setting it once more stores it twice: iteration visits it twice, and its first slot is not found by identity. */
  lemma ZeroKeyTwice<K(!new), V>(ty: KeyType<K>, zeroValue: V, a: K, v: V, w: V, u: V)
    requires Lawful(ty) && !IsZero(ty, a)
    ensures var ops := Losing(ty, a, v, w) + [Put(ty.zero, u)];
            var r := Run(ty, zeroValue, 2, ops);
            && r.Some? && r.value.count == 3 == |r.value.keys| - 1 && Others(ty, r.value.keys, 3) == 1
            && |FirstKeys(ty, ops)| == 2
            && !Iterates(ty, zeroValue, 2, ops) && !InternsAgree(ty, zeroValue, 2, ops)
  {
    var ops := Losing(ty, a, v, w) + [Put(ty.zero, u)];
    TwiceOutline(ty, zeroValue, a, v, w, u);
    RunTracks(ty, zeroValue, 2, ops);
    if Iterates(ty, zeroValue, 2, ops) { IteratesLength(ty, zeroValue, 2, ops); }
    InternsExactlyWhen(ty, zeroValue, 2, ops);
  }

  lemma InventsOutline<K, V>(ty: KeyType<K>, zeroValue: V, ops: seq<Op<K, V>>)
    requires |ops| == 1 && ops[0] == Fit(1)
    ensures OutlineOf(ty, zeroValue, 1, ops) == Outline(2, 0, 0, 1, Some(Spot(0, zeroValue)))
    ensures LastPut(ty, ops, ty.zero).None?
  {
    assert ops[..0] == [];
  }

  lemma InventsCount<K(!new), V>(ty: KeyType<K>, zeroValue: V, ops: seq<Op<K, V>>)
    requires Lawful(ty)
    ensures var r := Run(ty, zeroValue, 1, ops); r.Some? && r.value.count == OutlineOf(ty, zeroValue, 1, ops).count
  {
    RunTracks(ty, zeroValue, 1, ops);
  }

  /** Growing a new map makes it answer for the zero key, which was never set. */
  lemma GrowthInvents<K(!new), V>(ty: KeyType<K>, zeroValue: V, ops: seq<Op<K, V>>)
    requires Lawful(ty) && |ops| == 1 && ops[0] == Fit(1)
    ensures var r := Run(ty, zeroValue, 1, ops);
            r.Some? && r.value.count == 0 && Get(ty, r.value, ty.zero) == Some(zeroValue)
  {
    InventsOutline(ty, zeroValue, ops);
    InventsCount(ty, zeroValue, ops);
    ZeroLookup(ty, zeroValue, 1, ops, ty.zero);
  }

  lemma InventedDisagrees<K(!new), V>(ty: KeyType<K>, zeroValue: V, cap: nat, ops: seq<Op<K, V>>)
    requires Lawful(ty) && 0 < cap && OutlineOf(ty, zeroValue, cap, ops).zero.Some? && LastPut(ty, ops, ty.zero).None?
    ensures !Agrees(ty, zeroValue, cap, ops)
  {
    AgreesExactlyWhen(ty, zeroValue, cap, ops);
  }

  lemma GrowthDisagrees<K(!new), V>(ty: KeyType<K>, zeroValue: V, ops: seq<Op<K, V>>)
    requires Lawful(ty) && |ops| == 1 && ops[0] == Fit(1)
    ensures !Agrees(ty, zeroValue, 1, ops)
  {
    InventsOutline(ty, zeroValue, ops);
    InventedDisagrees(ty, zeroValue, 1, ops);
  }

  // ---------------------------------------------------------------- a full table

  /** Three sets of keys unequal to zero. */
  function Filling<K, V>(a: K, b: K, c: K, v: V): seq<Op<K, V>> {
    [Put(a, v)] + [Put(b, v)] + [Put(c, v)]
  }

  /** Keys unequal to zero and to each other. */
  ghost predicate Different<K>(ty: KeyType<K>, keys: seq<K>) {
    && (forall i :: 0 <= i < |keys| ==> !IsZero(ty, keys[i]))
    && (forall i, j :: 0 <= i < j < |keys| ==> !ty.eq(keys[i], keys[j]))
  }

  lemma NewKeyPut<K(!new), V>(
    ty: KeyType<K>, zeroValue: V, ops: seq<Op<K, V>>, cap: nat, count: nat, used: nat, key: K, v: V)
    requires 0 < cap && !IsZero(ty, key) && LastPut(ty, ops, key).None?
    requires OutlineOf(ty, zeroValue, 2, ops) == Outline(cap, count, count, used, None)
    ensures OutlineOf(ty, zeroValue, 2, ops + [Put(key, v)]) ==
              if count == cap - 1 then Outline(NewCap(cap, 2), count + 1, count + 1, count + 2, None)
              else Outline(cap, count + 1, count + 1, used + 1, None)
  {
    AfterPut(ty, zeroValue, 2, ops, key, v);
  }

  lemma LastPutOther<K, V>(ty: KeyType<K>, ops: seq<Op<K, V>>, key: K, v: V, k: K)
    requires !ty.eq(key, k)
    ensures LastPut(ty, ops + [Put(key, v)], k) == LastPut(ty, ops, k)
  {
    assert (ops + [Put(key, v)])[..|ops|] == ops;
  }

  lemma FillingOutline<K(!new), V>(ty: KeyType<K>, zeroValue: V, a: K, b: K, c: K, d: K, v: V)
    requires Different(ty, [a, b, c, d])
    ensures OutlineOf(ty, zeroValue, 2, Filling(a, b, c, v)) == Outline(4, 3, 3, 4, None)
    ensures LastPut(ty, Filling(a, b, c, v), d).None?
  {
    var keys := [a, b, c, d];
    assert keys[0] == a && keys[1] == b && keys[2] == c && keys[3] == d;
    var none: seq<Op<K, V>> := [];
    var one := [Put(a, v)];
    var two := one + [Put(b, v)];
    assert none + [Put(a, v)] == one;
    LastPutOther(ty, none, a, v, b);
    LastPutOther(ty, none, a, v, c);
    LastPutOther(ty, none, a, v, d);
    LastPutOther(ty, one, b, v, c);
    LastPutOther(ty, one, b, v, d);
    LastPutOther(ty, two, c, v, d);
    NewKeyPut(ty, zeroValue, none, 2, 0, 0, a, v);
    NewKeyPut(ty, zeroValue, one, 2, 1, 1, b, v);
    NewKeyPut(ty, zeroValue, two, 4, 2, 3, c, v);
  }

  /** They occupy all four buckets of a map of capacity two, and the bucket of another key is null. */
  lemma TableFills<K(!new), V>(ty: KeyType<K>, zeroValue: V, a: K, b: K, c: K, d: K, v: V)
    requires Lawful(ty) && Different(ty, [a, b, c, d])
    ensures var r := Run(ty, zeroValue, 2, Filling(a, b, c, v));
            && r.Some? && r.value.count == 3 && Cap(r.value) == UsedCount(r.value.buckets) == 4
            && !Bijective(r.value) && GetBucket(ty, r.value, d) == None
  {
    var keys := [a, b, c, d];
    assert !IsZero(ty, keys[3]);
    FillingOutline(ty, zeroValue, a, b, c, d, v);
    NullExactlyWhen(ty, zeroValue, 2, Filling(a, b, c, v), d);
    BijectionExactlyWhen(ty, zeroValue, 2, Filling(a, b, c, v));
  }
}
