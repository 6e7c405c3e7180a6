/**
 * What the map does over whole runs, against the history: lookups, iteration, lookup by identity and
 * the occupation of the buckets. Keys unequal to the all-zero key are always right. For the zero key
 * each property has its exact condition.
 */
module HashTableRuns {
  import opened Wrappers
  import opened HashTable
  import opened HashTableLemmas
  import opened HashTableGrowth
  import opened HashTableHistory

  // ---------------------------------------------------------------- whole runs

  /** A property holds throughout a run exactly when no operation breaks it. */
  lemma {:induction false} ThroughoutExactlyWhen<A(!new)>(p: seq<A> -> bool, keeps: (seq<A>, A) -> bool, ops: seq<A>)
    requires p([]) && forall before, op :: p(before) ==> (p(before + [op]) <==> keeps(before, op))
    ensures (forall n :: 0 <= n <= |ops| ==> p(ops[..n])) <==> (forall n :: 0 <= n < |ops| ==> keeps(ops[..n], ops[n]))
  {
    assert ops[..|ops|] == ops;
    if ops != [] {
      var last := |ops| - 1;
      var before := ops[..last];
      assert before + [ops[last]] == ops && before[..last] == before;
      ThroughoutExactlyWhen(p, keeps, before);
      assert forall n :: 0 <= n < |ops| ==> ops[..n] == before[..n];
      assert forall n :: 0 <= n < last ==> before[n] == ops[n];
    }
  }

  // ---------------------------------------------------------------- lookups

  /** A key that is found, unequal to zero, has the value of its last set. */
  lemma FoundLatest<K(!new), V>(ty: KeyType<K>, t: Table<K, V>, ops: seq<Op<K, V>>, key: K)
    requires Lawful(ty) && Orderly(ty, t, t.count) && !IsZero(ty, key) && Found(ty, t, key).Some?
    requires Remembers(ty, t.keys[..t.count], t.values[..t.count], ops)
    ensures LastPut(ty, ops, key) == Some(t.values[Found(ty, t, key).value])
  {
    var f, keys, values := Found(ty, t, key).value, t.keys[..t.count], t.values[..t.count];
    FoundMeaning(ty, t, t.count, key);
    assert keys[f] == t.keys[f] && values[f] == t.values[f] && !IsZero(ty, keys[f]);
    LastPutEqual(ty, ops, keys[f], key);
  }

  /**
   * After every run, the lookup of every key unequal to zero gives the value of its last set, and null if
   * there was none.
   */
  lemma OthersAlwaysAgree<K(!new), V>(ty: KeyType<K>, zeroValue: V, cap: nat, ops: seq<Op<K, V>>, key: K)
    requires Lawful(ty) && 0 < cap && !IsZero(ty, key)
    ensures var r := Run(ty, zeroValue, cap, ops); r.Some? && Get(ty, r.value, key) == LastPut(ty, ops, key)
  {
    RunTracks(ty, zeroValue, cap, ops);
    var t := Run(ty, zeroValue, cap, ops).value;
    FoundAsTold(ty, zeroValue, t, cap, ops, key);
    GetFound(ty, t, t.count, key);
    if Found(ty, t, key).Some? { FoundLatest(ty, t, ops, key); }
  }

  /** What the outline says the lookup of the zero key gives. */
  function ZeroValue<K, V>(ty: KeyType<K>, zeroValue: V, cap: nat, ops: seq<Op<K, V>>): Option<V>
    requires 0 < cap
  {
    match OutlineOf(ty, zeroValue, cap, ops).zero
    case None => None
    case Some(spot) => Some(spot.value)
  }

  lemma ZeroLookup<K(!new), V>(ty: KeyType<K>, zeroValue: V, cap: nat, ops: seq<Op<K, V>>, key: K)
    requires Lawful(ty) && 0 < cap && IsZero(ty, key)
    ensures var r := Run(ty, zeroValue, cap, ops);
            r.Some? && Get(ty, r.value, key) == ZeroValue(ty, zeroValue, cap, ops)
  {
    RunTracks(ty, zeroValue, cap, ops);
    ZeroAsTold(ty, zeroValue, Run(ty, zeroValue, cap, ops).value, OutlineOf(ty, zeroValue, cap, ops), key);
  }

  /** After run `ops` every lookup gives the value of the last set with an equal key, and null when there was none. */
  ghost predicate Agrees<K(!new), V>(ty: KeyType<K>, zeroValue: V, cap: nat, ops: seq<Op<K, V>>)
    requires 0 < cap
  {
    var r := Run(ty, zeroValue, cap, ops);
    r.Some? && forall k :: Get(ty, r.value, k) == LastPut(ty, ops, k)
  }

  lemma AgreesExactlyWhen<K(!new), V>(ty: KeyType<K>, zeroValue: V, cap: nat, ops: seq<Op<K, V>>)
    requires Lawful(ty) && 0 < cap
    ensures Agrees(ty, zeroValue, cap, ops) <==> ZeroValue(ty, zeroValue, cap, ops) == LastPut(ty, ops, ty.zero)
  {
    ZeroLookup(ty, zeroValue, cap, ops, ty.zero);
    var t := Run(ty, zeroValue, cap, ops).value;
    if ZeroValue(ty, zeroValue, cap, ops) == LastPut(ty, ops, ty.zero) {
      forall k ensures Get(ty, t, k) == LastPut(ty, ops, k) {
        if IsZero(ty, k) {
          ZeroLookup(ty, zeroValue, cap, ops, k);
          LastPutEqual(ty, ops, ty.zero, k);
        } else {
          OthersAlwaysAgree(ty, zeroValue, cap, ops, k);
        }
      }
    }
  }

  /** After run `ops`, setting `key` makes the map grow: the key is not found and one slot is unused. */
  predicate GrowsNext<K, V>(ty: KeyType<K>, zeroValue: V, cap: nat, ops: seq<Op<K, V>>, key: K)
    requires 0 < cap
  {
    var s := OutlineOf(ty, zeroValue, cap, ops);
    !IsFound(ty, ops, s, key) && s.count == s.cap - 1
  }

  /**
   * The operation leaves the zero key right: it is not a set of a new key in the slot the zero key
   * leads to, as every set that grows the map is, while the zero key is set; and if it is a growth
   * call that grows the map, the zero key is set to the value of zeroed memory.
   */
  ghost predicate KeepsZero<K, V>(ty: KeyType<K>, zeroValue: V, cap: nat, ops: seq<Op<K, V>>, op: Op<K, V>)
    requires 0 < cap
  {
    var s, last := OutlineOf(ty, zeroValue, cap, ops), LastPut(ty, ops, ty.zero);
    match op
    case Put(key, _) =>
      last.Some? && !IsFound(ty, ops, s, key) ==> s.count < s.cap - 1 && !(s.zero.Some? && s.zero.value.slot == s.count)
    case Fit(fitCap) => s.cap - s.count <= fitCap ==> last == Some(zeroValue)
  }

  /** Every operation of the run leaves the zero key right. */
  ghost predicate ZeroSafe<K, V>(ty: KeyType<K>, zeroValue: V, cap: nat, ops: seq<Op<K, V>>)
    requires 0 < cap
  {
    forall n :: 0 <= n < |ops| ==> KeepsZero(ty, zeroValue, cap, ops[..n], ops[n])
  }

  lemma ZeroStep<K(!new), V>(ty: KeyType<K>, zeroValue: V, cap: nat, before: seq<Op<K, V>>, op: Op<K, V>)
    requires Lawful(ty) && 0 < cap && ZeroValue(ty, zeroValue, cap, before) == LastPut(ty, before, ty.zero)
    ensures var ops := before + [op];
            ZeroValue(ty, zeroValue, cap, ops) == LastPut(ty, ops, ty.zero) <==>
                KeepsZero(ty, zeroValue, cap, before, op)
  {
    var ops := before + [op];
    assert ops[..|ops| - 1] == before;
  }

  /** The map agrees with the history throughout a run if and only if every operation leaves the zero key right. */
  lemma AgreesThroughout<K(!new), V(!new)>(ty: KeyType<K>, zeroValue: V, cap: nat, ops: seq<Op<K, V>>)
    requires Lawful(ty) && 0 < cap
    ensures (forall n :: 0 <= n <= |ops| ==> Agrees(ty, zeroValue, cap, ops[..n])) <==>
            ZeroSafe(ty, zeroValue, cap, ops)
  {
    AgreesExactlyWhen(ty, zeroValue, cap, []);
    forall before, op | Agrees(ty, zeroValue, cap, before)
      ensures Agrees(ty, zeroValue, cap, before + [op]) <==> KeepsZero(ty, zeroValue, cap, before, op)
    {
      AgreesExactlyWhen(ty, zeroValue, cap, before);
      AgreesExactlyWhen(ty, zeroValue, cap, before + [op]);
      ZeroStep(ty, zeroValue, cap, before, op);
    }
    ThroughoutExactlyWhen(o => Agrees(ty, zeroValue, cap, o), (o, op) => KeepsZero(ty, zeroValue, cap, o, op), ops);
  }

  // ---------------------------------------------------------------- iteration

  /** The keys of the history in order of first insertion, each with its latest value. */
  ghost predicate Lists<K, V>(ty: KeyType<K>, keys: seq<K>, values: seq<V>, ops: seq<Op<K, V>>) {
    && keys == FirstKeys(ty, ops) && |values| == |keys|
    && forall i :: 0 <= i < |keys| ==> LastPut(ty, ops, keys[i]) == Some(values[i])
  }

  /** After run `ops`, iteration, which visits the slots `0..count`, lists the history. */
  ghost predicate Iterates<K, V>(ty: KeyType<K>, zeroValue: V, cap: nat, ops: seq<Op<K, V>>)
    requires 0 < cap
  {
    var r := Run(ty, zeroValue, cap, ops);
    && r.Some? && r.value.count < Cap(r.value)
    && Lists(ty, r.value.keys[..r.value.count], r.value.values[..r.value.count], ops)
  }

  /** The keys of the history are pairwise unequal, and they are those that were set. */
  lemma {:induction false} FirstKeysMeaning<K(!new), V>(ty: KeyType<K>, ops: seq<Op<K, V>>, key: K)
    requires Lawful(ty)
    ensures var ks := FirstKeys(ty, ops);
            && (forall i, j :: 0 <= i < j < |ks| ==> !ty.eq(ks[i], ks[j]))
            && (LastPut(ty, ops, key).Some? <==> Stored(ty, ks, |ks|, key))
  {
    if ops != [] {
      var before, op := ops[..|ops| - 1], ops[|ops| - 1];
      FirstKeysMeaning(ty, before, key);
      if op.Put? {
        var ks := FirstKeys(ty, before);
        FirstKeysMeaning(ty, before, op.key);
        if LastPut(ty, before, op.key).Some? {
          if ty.eq(op.key, key) { LastPutEqual(ty, before, op.key, key); }
        } else {
          var ks' := ks + [op.key];
          assert forall s :: 0 <= s < |ks| ==> ks'[s] == ks[s] && !ty.eq(ks[s], op.key);
          assert ks'[|ks|] == op.key;
          if Stored(ty, ks, |ks|, key) {
            var s :| 0 <= s < |ks| && ty.eq(ks[s], key);
            assert ty.eq(ks'[s], key);
          }
        }
      }
    }
  }

  /** A pair appended: it must be new. */
  lemma ListAppended<K(!new), V>(ty: KeyType<K>, keys: seq<K>, values: seq<V>, ops: seq<Op<K, V>>, key: K, value: V)
    requires Lawful(ty) && Lists(ty, keys, values, ops)
    ensures Lists(ty, keys + [key], values + [value], ops + [Put(key, value)]) <==> LastPut(ty, ops, key).None?
  {
    var ops' := ops + [Put(key, value)];
    assert ops'[..|ops'| - 1] == ops;
    FirstKeysMeaning(ty, ops, key);
    if LastPut(ty, ops, key).None? {
      assert forall i :: 0 <= i < |keys| ==> !ty.eq(keys[i], key) && !ty.eq(key, keys[i]);
    } else {
      assert |keys + [key]| != |FirstKeys(ty, ops')|;
    }
  }

  /** The value of a stored key overwritten. */
  lemma ListOver<K(!new), V>(ty: KeyType<K>, keys: seq<K>, values: seq<V>, ops: seq<Op<K, V>>, key: K, value: V, f: nat)
    requires Lawful(ty) && Lists(ty, keys, values, ops) && f < |keys| && ty.eq(keys[f], key)
    ensures Lists(ty, keys, values[f := value], ops + [Put(key, value)])
  {
    var ops' := ops + [Put(key, value)];
    assert ops'[..|ops'| - 1] == ops;
    FirstKeysMeaning(ty, ops, key);
    assert forall i :: 0 <= i < |keys| && i != f ==> !ty.eq(keys[i], keys[f]) && !ty.eq(keys[f], keys[i]);
    assert forall i :: 0 <= i < |keys| && i != f ==> !ty.eq(key, keys[i]);
  }

  /** Nothing stored changes: the key must be stored with that very value. */
  lemma ListKept<K(!new), V>(ty: KeyType<K>, keys: seq<K>, values: seq<V>, ops: seq<Op<K, V>>, key: K, value: V)
    requires Lawful(ty) && Lists(ty, keys, values, ops)
    ensures Lists(ty, keys, values, ops + [Put(key, value)]) <==> LastPut(ty, ops, key) == Some(value)
  {
    var ops' := ops + [Put(key, value)];
    assert ops'[..|ops'| - 1] == ops;
    FirstKeysMeaning(ty, ops, key);
    if LastPut(ty, ops, key).Some? {
      var f :| 0 <= f < |keys| && ty.eq(keys[f], key);
      LastPutEqual(ty, ops, keys[f], key);
      assert ty.eq(key, keys[f]);
      if LastPut(ty, ops, key) == Some(value) { ListOver(ty, keys, values, ops, key, value, f); }
    } else {
      assert |keys| != |FirstKeys(ty, ops')|;
    }
  }

  /**
   * The operation leaves iteration right: it does not set the zero key again after it was lost, nor
   * set it to another value while it leads to a spare slot.
   */
  ghost predicate KeepsEntries<K, V>(ty: KeyType<K>, zeroValue: V, cap: nat, ops: seq<Op<K, V>>, op: Op<K, V>)
    requires 0 < cap
  {
    var s, last := OutlineOf(ty, zeroValue, cap, ops), LastPut(ty, ops, ty.zero);
    op.Put? && IsZero(ty, op.key) ==>
      match s.zero
      case None => last.None?
      case Some(spot) => spot.slot < s.count || last == Some(op.value)
  }

  /** Every operation of the run leaves iteration right. */
  ghost predicate EntriesSafe<K, V>(ty: KeyType<K>, zeroValue: V, cap: nat, ops: seq<Op<K, V>>)
    requires 0 < cap
  {
    forall n :: 0 <= n < |ops| ==> KeepsEntries(ty, zeroValue, cap, ops[..n], ops[n])
  }

  lemma EntriesPut<K(!new), V>(
    ty: KeyType<K>, zeroValue: V, t: Table<K, V>, cap: nat, before: seq<Op<K, V>>, op: Op<K, V>)
    requires Lawful(ty) && 0 < cap && Tracks(ty, zeroValue, t, cap, before) && op.Put?
    requires Lists(ty, t.keys[..t.count], t.values[..t.count], before)
    ensures var r := Set(ty, zeroValue, t, op.key, op.value);
            && r.Some? && r.value.count <= |r.value.keys| && r.value.count <= |r.value.values|
            && (Lists(ty, r.value.keys[..r.value.count], r.value.values[..r.value.count], before + [op]) <==>
                KeepsEntries(ty, zeroValue, cap, before, op))
  {
    var keys, values, key, value := t.keys[..t.count], t.values[..t.count], op.key, op.value;
    assert op == Put(key, value);
    DensePut(ty, zeroValue, t, key, value);
    FoundAsTold(ty, zeroValue, t, cap, before, key);
    if IsZero(ty, key) {
      ZeroAsTold(ty, zeroValue, t, OutlineOf(ty, zeroValue, cap, before), key);
      LastPutEqual(ty, before, ty.zero, key);
    }
    var f := Found(ty, t, key);
    if f.None? {
      ListAppended(ty, keys, values, before, key, value);
    } else if f.value < t.count {
      assert keys[f.value] == t.keys[f.value];
      ListOver(ty, keys, values, before, key, value, f.value);
    } else {
      ListKept(ty, keys, values, before, key, value);
    }
  }

  lemma EntriesStep<K(!new), V>(ty: KeyType<K>, zeroValue: V, cap: nat, before: seq<Op<K, V>>, op: Op<K, V>)
    requires Lawful(ty) && 0 < cap && Iterates(ty, zeroValue, cap, before)
    ensures Iterates(ty, zeroValue, cap, before + [op]) <==> KeepsEntries(ty, zeroValue, cap, before, op)
  {
    var ops := before + [op];
    assert ops[..|ops| - 1] == before;
    RunTracks(ty, zeroValue, cap, before);
    RunTracks(ty, zeroValue, cap, ops);
    var t := Run(ty, zeroValue, cap, before).value;
    match op
    case Put(_, _) => EntriesPut(ty, zeroValue, t, cap, before, op);
    case Fit(fitCap) =>
      GrowDense(ty, zeroValue, t, fitCap);
      assert forall k :: LastPut(ty, ops, k) == LastPut(ty, before, k);
  }

  lemma EntriesStart<K, V>(ty: KeyType<K>, zeroValue: V, cap: nat)
    requires 0 < cap
    ensures Iterates(ty, zeroValue, cap, [])
  {
  }

  /**
   * Throughout a run, iteration visits each distinct key once, in order of first insertion, with its
   * latest value, if and only if every operation leaves iteration right.
   */
  lemma IteratesThroughout<K(!new), V(!new)>(ty: KeyType<K>, zeroValue: V, cap: nat, ops: seq<Op<K, V>>)
    requires Lawful(ty) && 0 < cap
    ensures (forall n :: 0 <= n <= |ops| ==> Iterates(ty, zeroValue, cap, ops[..n])) <==>
            EntriesSafe(ty, zeroValue, cap, ops)
  {
    EntriesStart(ty, zeroValue, cap);
    forall before, op | Iterates(ty, zeroValue, cap, before)
      ensures Iterates(ty, zeroValue, cap, before + [op]) <==> KeepsEntries(ty, zeroValue, cap, before, op)
    {
      EntriesStep(ty, zeroValue, cap, before, op);
    }
    ThroughoutExactlyWhen(o => Iterates(ty, zeroValue, cap, o), (o, op) => KeepsEntries(ty, zeroValue, cap, o, op),
        ops);
  }

  // ---------------------------------------------------------------- lookup by identity

  /** Looking up every stored key by its identity gives the bucket and the value that looking it up gives. */
  ghost predicate SlotsIntern<K, V>(ty: KeyType<K>, t: Table<K, V>)
    requires WellFormed(t) && t.count <= Cap(t)
  {
    forall slot: nat :: slot < t.count ==>
      var p := KeyPtr(t.keys[slot], Some(slot));
      GetBucketByIntern(ty, t, p) == GetBucket(ty, t, p.key) && GetByIntern(ty, t, p) == Get(ty, t, p.key)
  }

  lemma SlotsInternExactlyWhen<K(!new), V>(ty: KeyType<K>, t: Table<K, V>)
    requires Lawful(ty) && Orderly(ty, t, t.count)
    ensures SlotsIntern(ty, t) <==>
            (Found(ty, t, ty.zero).Some? ==>
               forall s :: 0 <= s < t.count && IsZero(ty, t.keys[s]) ==> s == Found(ty, t, ty.zero).value)
  {
    forall slot: nat | slot < t.count
      ensures var p := KeyPtr(t.keys[slot], Some(slot));
              GetBucketByIntern(ty, t, p) == GetBucket(ty, t, p.key) <==>
              (IsZero(ty, t.keys[slot]) && Found(ty, t, ty.zero).Some? ==> Found(ty, t, ty.zero) == Some(slot))
    {
      InternExactlyWhen(ty, t, t.count, KeyPtr(t.keys[slot], Some(slot)));
    }
  }

  lemma {:induction false} ZerosCount<K>(ty: KeyType<K>, keys: seq<K>, n: nat)
    requires n <= |keys|
    ensures (forall s :: 0 <= s < n ==> !IsZero(ty, keys[s])) <==> Others(ty, keys, n) == n
  {
    if n > 0 { ZerosCount(ty, keys, n - 1); }
  }

  /** Slot `z` is the only one that stores the zero key, or none does. */
  lemma {:induction false} ZerosAt<K>(ty: KeyType<K>, keys: seq<K>, n: nat, z: nat)
    requires n <= |keys| && (z < n ==> IsZero(ty, keys[z]))
    ensures (forall s :: 0 <= s < n && IsZero(ty, keys[s]) ==> s == z) <==>
            n - Others(ty, keys, n) == if z < n then 1 else 0
  {
    if n > 0 {
      ZerosAt(ty, keys, n - 1, z);
      ZerosCount(ty, keys, n - 1);
    }
  }

  /** After run `ops`, lookup by identity is lookup by key for every stored key. */
  ghost predicate InternsAgree<K, V>(ty: KeyType<K>, zeroValue: V, cap: nat, ops: seq<Op<K, V>>)
    requires 0 < cap
  {
    var r := Run(ty, zeroValue, cap, ops);
    r.Some? && r.value.count <= Cap(r.value) && SlotsIntern(ty, r.value)
  }

  /**
   * In the state any run leaves, lookup by identity is lookup by key for every stored key, if and only
   * if the zero key is not found, or is found in the only slot that stores it, or is not stored at all.
   */
  lemma InternsExactlyWhen<K(!new), V>(ty: KeyType<K>, zeroValue: V, cap: nat, ops: seq<Op<K, V>>)
    requires Lawful(ty) && 0 < cap
    ensures var s := OutlineOf(ty, zeroValue, cap, ops);
            InternsAgree(ty, zeroValue, cap, ops) <==>
            (s.zero.Some? ==> s.count - s.others == if s.zero.value.slot < s.count then 1 else 0)
  {
    var s := OutlineOf(ty, zeroValue, cap, ops);
    RunTracks(ty, zeroValue, cap, ops);
    var t := Run(ty, zeroValue, cap, ops).value;
    SlotsInternExactlyWhen(ty, t);
    if s.zero.Some? { ZerosAt(ty, t.keys, t.count, s.zero.value.slot); }
  }
}
