/**
 * Key types that hash the address of a key, as the primitive ones do (lib/core/runtime.h:46-50): a key
 * has one hash where the caller keeps it and another in each slot it is copied to. So the hashes of a
 * run are arbitrary numbers. What such a map looks up is accidental; here is when its operations
 * complete at all.
 */
module HashTableAddresses {
  import opened Wrappers
  import opened HashTable
  import opened HashTableLemmas
  import opened HashTableGrowth

  /** The bucket found for a key whose pointer hashes to `hash`. */
  function GetBucketAt<K, V>(ty: KeyType<K>, t: Table<K, V>, key: K, hash: nat): (r: Option<nat>)
    requires WellFormed(t)
    ensures r.Some? ==> r.value < Cap(t) && Stops(ty, t, key, r.value)
  {
    Probe(ty, t, key, hash % 0x1_0000_0000 % Cap(t), Cap(t))
  }

  /** The reinsertion loop, if the pointer to slot `s` hashes to `slots(s)`. */
  function ReinsertAt<K, V>(ty: KeyType<K>, t: Table<K, V>, slots: nat -> nat, i: nat, n: nat)
    : (r: Option<Table<K, V>>)
    requires WellFormed(t) && i <= n <= Cap(t)
    ensures r.Some? ==> WellFormed(r.value) && Cap(r.value) == Cap(t) && r.value.count == t.count
    decreases n - i
  {
    if i == n then Some(t)
    else
      var b := GetBucketAt(ty, t, t.keys[i], slots(i));
      if b.None? then None else ReinsertAt(ty, Point(t, b.value, i), slots, i + 1, n)
  }

  function GrowAt<K, V>(ty: KeyType<K>, zeroValue: V, t: Table<K, V>, fitCap: nat, slots: nat -> nat)
    : (r: Option<Table<K, V>>)
    requires WellFormed(t) && t.count <= Cap(t)
    ensures r.Some? ==> WellFormed(r.value) && r.value.count == t.count && t.count + fitCap <= Cap(r.value)
  {
    if Cap(t) - t.count > fitCap then Some(t)
    else ReinsertAt(ty, Enlarged(ty, zeroValue, t, NewCap(Cap(t), fitCap)), slots, 0, Cap(t))
  }

  function AddAt<K, V>(
    ty: KeyType<K>, zeroValue: V, t: Table<K, V>, key: K, value: V, bucket: Option<nat>, hash: nat, slots: nat -> nat)
    : (r: Option<Table<K, V>>)
    requires WellFormed(t) && t.count < Cap(t) && (bucket.Some? ==> bucket.value < Cap(t))
    ensures r.Some? ==> WellFormed(r.value)
  {
    if t.count >= Cap(t) - 1 then
      var grown := GrowAt(ty, zeroValue, t, 2, slots);
      if grown.None? then None
      else
        var b := GetBucketAt(ty, grown.value, key, hash);
        if b.None? then None else Some(Store(grown.value, b.value, key, value))
    else if bucket.None? then None
    else Some(Store(t, bucket.value, key, value))
  }

  function SetAt<K, V>(
    ty: KeyType<K>, zeroValue: V, t: Table<K, V>, key: K, value: V, hash: nat, slots: nat -> nat)
    : (r: Option<Table<K, V>>)
    requires WellFormed(t) && t.count < Cap(t)
    ensures r.Some? ==> WellFormed(r.value)
  {
    var b := GetBucketAt(ty, t, key, hash);
    if b.None? || t.buckets[b.value].Free? then AddAt(ty, zeroValue, t, key, value, b, hash, slots)
    else Some(t.(values := t.values[t.buckets[b.value].value := value]))
  }

  // ---------------------------------------------------------------- hashes of values are a special case

  lemma {:induction false} ReinsertIsAt<K, V>(ty: KeyType<K>, t: Table<K, V>, slots: nat -> nat, i: nat, n: nat)
    requires WellFormed(t) && i <= n <= Cap(t) && forall s: nat :: s < n ==> slots(s) == ty.hash(t.keys[s])
    ensures ReinsertAt(ty, t, slots, i, n) == Reinsert(ty, t, i, n)
    decreases n - i
  {
    if i < n {
      var b := GetBucket(ty, t, t.keys[i]);
      if b.Some? { ReinsertIsAt(ty, Point(t, b.value, i), slots, i + 1, n); }
    }
  }

  /** If pointers hash as the keys they point at, a set is the set of HashTable.dfy. */
  lemma SetIsAt<K, V>(ty: KeyType<K>, zeroValue: V, t: Table<K, V>, key: K, value: V, slots: nat -> nat)
    requires WellFormed(t) && t.count < Cap(t) && forall s: nat :: s < Cap(t) ==> slots(s) == ty.hash(t.keys[s])
    ensures SetAt(ty, zeroValue, t, key, value, ty.hash(key), slots) == Set(ty, zeroValue, t, key, value)
  {
    ReinsertIsAt(ty, Enlarged(ty, zeroValue, t, NewCap(Cap(t), 2)), slots, 0, Cap(t));
  }

  // ---------------------------------------------------------------- one operation

  lemma PointAt<K, V>(ty: KeyType<K>, t: Table<K, V>, i: nat, hash: nat)
    requires WellFormed(t) && i < Cap(t) && UsedCount(t.buckets) <= i
    ensures var b := GetBucketAt(ty, t, t.keys[i], hash); b.Some? && UsedCount(Point(t, b.value, i).buckets) <= i + 1
  {
    var start := hash % 0x1_0000_0000 % Cap(t);
    if Probe(ty, t, t.keys[i], start, Cap(t)).None? { ProbeNone(ty, t, t.keys[i], start); }
    UsedCountUpdate(t.buckets, GetBucketAt(ty, t, t.keys[i], hash).value, Used(i, i));
  }

  lemma {:induction false} ReinsertAtTotal<K, V>(ty: KeyType<K>, t: Table<K, V>, slots: nat -> nat, i: nat, n: nat)
    requires WellFormed(t) && i <= n < Cap(t) && UsedCount(t.buckets) <= i
    ensures var r := ReinsertAt(ty, t, slots, i, n); r.Some? && UsedCount(r.value.buckets) <= n
    decreases n - i
  {
    if i < n {
      PointAt(ty, t, i, slots(i));
      ReinsertAtTotal(ty, Point(t, GetBucketAt(ty, t, t.keys[i], slots(i)).value, i), slots, i + 1, n);
    }
  }

  /** A growth never fails. It may occupy a bucket for every old slot, spare ones included. */
  lemma GrowAtTotal<K, V>(ty: KeyType<K>, zeroValue: V, t: Table<K, V>, fitCap: nat, slots: nat -> nat)
    requires WellFormed(t) && t.count <= Cap(t) <= t.count + fitCap
    ensures var r := GrowAt(ty, zeroValue, t, fitCap, slots);
            r.Some? && Cap(r.value) == NewCap(Cap(t), fitCap) > Cap(t) && UsedCount(r.value.buckets) <= Cap(t)
  {
    UsedCountFresh(NewCap(Cap(t), fitCap));
    ReinsertAtTotal(ty, Enlarged(ty, zeroValue, t, NewCap(Cap(t), fitCap)), slots, 0, Cap(t));
  }

  /** A set that grows the map completes, and leaves it sound. */
  lemma AddAtGrowing<K, V>(
    ty: KeyType<K>, zeroValue: V, t: Table<K, V>, key: K, value: V, bucket: Option<nat>, hash: nat, slots: nat -> nat)
    requires WellFormed(t) && t.count == Cap(t) - 1 && (bucket.Some? ==> bucket.value < Cap(t))
    ensures var r := AddAt(ty, zeroValue, t, key, value, bucket, hash, slots); r.Some? && Sound(r.value)
  {
    GrowAtTotal(ty, zeroValue, t, 2, slots);
    var g := GrowAt(ty, zeroValue, t, 2, slots).value;
    var start := hash % 0x1_0000_0000 % Cap(g);
    if Probe(ty, g, key, start, Cap(g)).None? { ProbeNone(ty, g, key, start); }
    UsedCountUpdate(g.buckets, GetBucketAt(ty, g, key, hash).value, Used(g.count, g.count));
  }

  /**
   * A set writes through a null bucket exactly when the map does not grow, all its buckets are
   * occupied, and none of them holds an equal key.
   */
  lemma SetAbortsExactlyWhen<K, V>(
    ty: KeyType<K>, zeroValue: V, t: Table<K, V>, key: K, value: V, hash: nat, slots: nat -> nat)
    requires WellFormed(t) && t.count < Cap(t)
    ensures SetAt(ty, zeroValue, t, key, value, hash, slots).None? <==>
            t.count < Cap(t) - 1 && forall b :: 0 <= b < Cap(t) ==> !Stops(ty, t, key, b)
  {
    var start := hash % 0x1_0000_0000 % Cap(t);
    if Probe(ty, t, key, start, Cap(t)).None? { ProbeNone(ty, t, key, start); }
    if t.count == Cap(t) - 1 {
      AddAtGrowing(ty, zeroValue, t, key, value, GetBucketAt(ty, t, key, hash), hash, slots);
    }
  }

  /** A set on a sound map completes, and leaves it sound. */
  lemma SetAtTotal<K, V>(
    ty: KeyType<K>, zeroValue: V, t: Table<K, V>, key: K, value: V, hash: nat, slots: nat -> nat)
    requires Sound(t)
    ensures var r := SetAt(ty, zeroValue, t, key, value, hash, slots); r.Some? && Sound(r.value)
  {
    var b, start := GetBucketAt(ty, t, key, hash), hash % 0x1_0000_0000 % Cap(t);
    if b.None? { ProbeNone(ty, t, key, start); }
    if t.count == Cap(t) - 1 {
      AddAtGrowing(ty, zeroValue, t, key, value, b, hash, slots);
    } else {
      UsedCountUpdate(t.buckets, b.value, Used(t.count, t.count));
    }
  }

  // ---------------------------------------------------------------- runs

  /** A set by a pointer that hashes to `hash`, or a call of `hashmap_grow`; `slots` hashes the slots of a new array. */
  datatype Op<K, V> =
    | Put(key: K, value: V, hash: nat, slots: nat -> nat)
    | Fit(fitCap: nat, slots: nat -> nat)

  function Step<K, V>(ty: KeyType<K>, zeroValue: V, t: Table<K, V>, op: Op<K, V>): (r: Option<Table<K, V>>)
    requires WellFormed(t) && t.count < Cap(t)
    ensures r.Some? ==> WellFormed(r.value)
  {
    match op
    case Put(key, value, hash, slots) => SetAt(ty, zeroValue, t, key, value, hash, slots)
    case Fit(fitCap, slots) => GrowAt(ty, zeroValue, t, fitCap, slots)
  }

  /** The rest of a run, from table `t` on. */
  ghost predicate Completes<K, V>(ty: KeyType<K>, zeroValue: V, t: Table<K, V>, ops: seq<Op<K, V>>)
    requires WellFormed(t)
    decreases |ops|
  {
    ops == [] ||
    (t.count < Cap(t) &&
     var r := Step(ty, zeroValue, t, ops[0]);
     r.Some? && Completes(ty, zeroValue, r.value, ops[1..]))
  }

  /** Each growth call of the run that grows the map finds at most `spare` slots unused. */
  ghost predicate SpareWithin<K, V>(ty: KeyType<K>, zeroValue: V, t: Table<K, V>, ops: seq<Op<K, V>>, spare: nat)
    requires WellFormed(t)
    decreases |ops|
  {
    ops == [] || t.count >= Cap(t) ||
    ((ops[0].Fit? ==> Cap(t) - t.count > ops[0].fitCap || Cap(t) - t.count <= spare) &&
     var r := Step(ty, zeroValue, t, ops[0]);
     r.Some? ==> SpareWithin(ty, zeroValue, r.value, ops[1..], spare))
  }

  /** A set, or a growth call that does nothing or finds a single slot unused, completes and leaves the map sound. */
  lemma StepTotal<K, V>(ty: KeyType<K>, zeroValue: V, t: Table<K, V>, op: Op<K, V>)
    requires Sound(t) && (op.Fit? ==> Cap(t) - t.count > op.fitCap || Cap(t) - t.count <= 1)
    ensures var r := Step(ty, zeroValue, t, op); r.Some? && Sound(r.value)
  {
    match op
    case Put(key, value, hash, slots) =>
      SetAtTotal(ty, zeroValue, t, key, value, hash, slots);
    case Fit(fitCap, slots) =>
      if Cap(t) - t.count <= fitCap { GrowAtTotal(ty, zeroValue, t, fitCap, slots); }
  }

  /** Runs of sets, and of growth calls on maps with a single slot unused, complete whatever the hashes. */
  lemma {:induction false} SoundCompletes<K, V>(ty: KeyType<K>, zeroValue: V, t: Table<K, V>, ops: seq<Op<K, V>>)
    requires Sound(t) && SpareWithin(ty, zeroValue, t, ops, 1)
    ensures Completes(ty, zeroValue, t, ops)
    decreases |ops|
  {
    if ops != [] {
      StepTotal(ty, zeroValue, t, ops[0]);
      SoundCompletes(ty, zeroValue, Step(ty, zeroValue, t, ops[0]).value, ops[1..]);
    }
  }

  /**
   * Whatever the hashes, every run on a new map completes that grows it explicitly with at most `spare`
   * slots unused.
   */
  ghost predicate AlwaysCompletes<K(!new), V(!new)>(ty: KeyType<K>, zeroValue: V, spare: nat) {
    forall cap: nat, ops: seq<Op<K, V>> ::
      0 < cap && SpareWithin(ty, zeroValue, New(ty, zeroValue, cap), ops, spare) ==>
        Completes(ty, zeroValue, New(ty, zeroValue, cap), ops)
  }

  lemma {:induction false} SpareMore<K, V>(
    ty: KeyType<K>, zeroValue: V, t: Table<K, V>, ops: seq<Op<K, V>>, few: nat, many: nat)
    requires WellFormed(t) && few <= many && SpareWithin(ty, zeroValue, t, ops, few)
    ensures SpareWithin(ty, zeroValue, t, ops, many)
    decreases |ops|
  {
    if ops != [] && t.count < Cap(t) {
      var r := Step(ty, zeroValue, t, ops[0]);
      if r.Some? { SpareMore(ty, zeroValue, r.value, ops[1..], few, many); }
    }
  }

  // ---------------------------------------------------------------- integer keys

  /** Integers, compared by value. */
  function IntKey(): KeyType<int> {
    KeyType(_ => 0, (a, b) => a == b, 0)
  }

  function Itself(): nat -> nat { s => s }

  /**
   * A growth call on a new map of two slots gives both spare slots a bucket, and two sets occupy the
   * other two. The third set then finds no bucket, in a map with one slot more than it needs.
   */
  function Overfull<V>(v: V): seq<Op<int, V>> {
    [Fit(2, Itself()), Put(1, v, 2, Itself()), Put(2, v, 3, Itself()), Put(3, v, 0, Itself())]
  }

  function Grown<V>(z: V): Table<int, V> {
    Table([Used(0, 0), Used(1, 1), Free, Free], [0, 0, 0, 0], [z, z, z, z], 0)
  }

  function OneSet<V>(z: V, v: V): Table<int, V> {
    Table([Used(0, 0), Used(1, 1), Used(0, 0), Free], [1, 0, 0, 0], [v, z, z, z], 1)
  }

  function TwoSet<V>(z: V, v: V): Table<int, V> {
    Table([Used(0, 0), Used(1, 1), Used(0, 0), Used(1, 1)], [1, 2, 0, 0], [v, v, z, z], 2)
  }

  lemma OverfullGrows<V>(z: V)
    ensures GrowAt(IntKey(), z, New(IntKey(), z, 2), 2, Itself()) == Some(Grown(z))
  {
    var ty, f := IntKey(), Itself();
    var t0 := Enlarged(ty, z, New(ty, z, 2), 4);
    assert t0 == Table([Free, Free, Free, Free], [0, 0, 0, 0], [z, z, z, z], 0);
    assert GetBucketAt(ty, t0, 0, 0) == Some(0);
    var t1 := Point(t0, 0, 0);
    assert GetBucketAt(ty, t1, 0, 1) == Some(1);
    assert Point(t1, 1, 1) == Grown(z);
    assert ReinsertAt(ty, t1, f, 1, 2) == ReinsertAt(ty, Point(t1, 1, 1), f, 2, 2);
  }

  lemma OverfullFirst<V>(z: V, v: V)
    ensures SetAt(IntKey(), z, Grown(z), 1, v, 2, Itself()) == Some(OneSet(z, v))
  {
    assert GetBucketAt(IntKey(), Grown(z), 1, 2) == Some(2);
    assert Store(Grown(z), 2, 1, v) == OneSet(z, v);
  }

  lemma OverfullSecond<V>(z: V, v: V)
    ensures SetAt(IntKey(), z, OneSet(z, v), 2, v, 3, Itself()) == Some(TwoSet(z, v))
  {
    assert GetBucketAt(IntKey(), OneSet(z, v), 2, 3) == Some(3);
    assert Store(OneSet(z, v), 3, 2, v) == TwoSet(z, v);
  }

  lemma OverfullThird<V>(z: V, v: V)
    ensures SetAt(IntKey(), z, TwoSet(z, v), 3, v, 0, Itself()).None?
  {
    SetAbortsExactlyWhen(IntKey(), z, TwoSet(z, v), 3, v, 0, Itself());
  }

  lemma CompletesStep<K, V>(ty: KeyType<K>, zeroValue: V, t: Table<K, V>, ops: seq<Op<K, V>>, t': Table<K, V>)
    requires WellFormed(t) && t.count < Cap(t) && ops != [] && Step(ty, zeroValue, t, ops[0]) == Some(t')
    ensures Completes(ty, zeroValue, t, ops) == Completes(ty, zeroValue, t', ops[1..])
    ensures ops[0].Put? ==> SpareWithin(ty, zeroValue, t, ops, 2) == SpareWithin(ty, zeroValue, t', ops[1..], 2)
  {
  }

  /** The run aborts at its last set; its only growth call finds two slots unused. */
  lemma OverfullAborts<V>(z: V, v: V)
    ensures var t := New(IntKey(), z, 2);
            !Completes(IntKey(), z, t, Overfull(v)) && SpareWithin(IntKey(), z, t, Overfull(v), 2)
  {
    var ty, ops := IntKey(), Overfull(v);
    OverfullGrows(z);
    OverfullFirst(z, v);
    OverfullSecond(z, v);
    OverfullThird(z, v);
    CompletesStep(ty, z, New(ty, z, 2), ops, Grown(z));
    CompletesStep(ty, z, Grown(z), ops[1..], OneSet(z, v));
    CompletesStep(ty, z, OneSet(z, v), ops[1..][1..], TwoSet(z, v));
  }

  /**
   * With integer keys, hashed by address: runs complete whatever the addresses if and only if growth
   * calls find no more than one slot unused.
   */
  lemma CompletesExactlyWhen<V(!new)>(zeroValue: V, spare: nat)
    ensures AlwaysCompletes(IntKey(), zeroValue, spare) <==> spare <= 1
  {
    if spare <= 1 {
      forall cap: nat, ops: seq<Op<int, V>> |
        0 < cap && SpareWithin(IntKey(), zeroValue, New(IntKey(), zeroValue, cap), ops, spare)
        ensures Completes(IntKey(), zeroValue, New(IntKey(), zeroValue, cap), ops)
      {
        UsedCountFresh(cap);
        SpareMore(IntKey(), zeroValue, New(IntKey(), zeroValue, cap), ops, spare, 1);
        SoundCompletes(IntKey(), zeroValue, New(IntKey(), zeroValue, cap), ops);
      }
    } else {
      OverfullAborts(zeroValue, zeroValue);
      SpareMore(IntKey(), zeroValue, New(IntKey(), zeroValue, 2), Overfull(zeroValue), 2, spare);
    }
  }
}
