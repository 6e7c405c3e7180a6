/**
 * How large a map gets and what its growths cost, for every key type: the capacity stays within twice
 * the stored keys, and all growths together reinsert at most two slots for every set.
 */
module HashTableCost {
  import opened Wrappers
  import opened HashTable
  import opened HashTableLemmas
  import opened HashTableGrowth
  import opened HashTableSet
  import opened HashTableHistory

  /** A growth takes the larger of twice the capacity and the capacity plus what is asked for. */
  lemma GrowCapacity<K, V>(ty: KeyType<K>, zeroValue: V, t: Table<K, V>, fitCap: nat)
    requires WellFormed(t) && t.count <= Cap(t)
    ensures var r := Grow(ty, zeroValue, t, fitCap);
            && r.Some? && r.value.count == t.count
            && if t.count + fitCap < Cap(t) then r.value == t
               else
                 && 2 * Cap(t) <= Cap(r.value) && Cap(t) + fitCap <= Cap(r.value)
                 && (Cap(r.value) == 2 * Cap(t) || Cap(r.value) == Cap(t) + fitCap)
  {
    if Cap(t) <= t.count + fitCap { GrowTotal(ty, zeroValue, t, fitCap); }
  }

  /** A set keeps the capacity, unless it adds a key to a map with one slot unused, which about doubles it. */
  lemma SetCapacity<K, V>(ty: KeyType<K>, zeroValue: V, t: Table<K, V>, key: K, value: V)
    requires Sound(t)
    ensures var r := Set(ty, zeroValue, t, key, value);
            && r.Some? && Sound(r.value) && t.count <= r.value.count <= t.count + 1
            && if t.count < Cap(t) - 1 || r.value.count == t.count then Cap(r.value) == Cap(t)
               else Cap(r.value) == if Cap(t) == 1 then 3 else 2 * Cap(t)
  {
    SetTotal(ty, zeroValue, t, key, value);
    if Found(ty, t, key).None? {
      SetStores(ty, zeroValue, t, key, value);
      if t.count == Cap(t) - 1 { GrowCapacity(ty, zeroValue, t, 2); }
    }
  }

  /** The slots that the growths of a run have reinserted: at each change of the capacity, all old slots. */
  ghost function Reinserted<K, V>(ty: KeyType<K>, zeroValue: V, cap: nat, ops: seq<Op<K, V>>): nat
    requires 0 < cap
  {
    if ops == [] then 0
    else
      var before := ops[..|ops| - 1];
      var r, r' := Run(ty, zeroValue, cap, before), Run(ty, zeroValue, cap, ops);
      var grown := r.Some? && r'.Some? && Cap(r'.value) != Cap(r.value);
      Reinserted(ty, zeroValue, cap, before) + if grown then Cap(r.value) else 0
  }

  /** The capacity pays for the slots reinserted so far, and is paid for by the stored keys. */
  ghost predicate Affordable<K, V>(t: Table<K, V>, cap: nat, sets: nat, reinserted: nat) {
    && t.count <= sets && reinserted + cap <= Cap(t)
    && (Cap(t) == cap || (sets >= 1 && Cap(t) <= cap + 2) || Cap(t) <= 2 * t.count)
  }

  lemma AffordableStep<K, V>(
    ty: KeyType<K>, zeroValue: V, t: Table<K, V>, cap: nat, sets: nat, reinserted: nat, key: K, value: V)
    requires Sound(t) && 0 < cap && Affordable(t, cap, sets, reinserted)
    ensures var r := Set(ty, zeroValue, t, key, value);
            r.Some? && Affordable(r.value, cap, sets + 1, reinserted + if Cap(r.value) != Cap(t) then Cap(t) else 0)
  {
    SetCapacity(ty, zeroValue, t, key, value);
  }

  lemma {:induction false} RunAffordable<K, V>(ty: KeyType<K>, zeroValue: V, cap: nat, ops: seq<Op<K, V>>)
    requires 0 < cap && PutsOnly(ops)
    ensures var r := Run(ty, zeroValue, cap, ops);
            r.Some? && Sound(r.value) && Affordable(r.value, cap, |ops|, Reinserted(ty, zeroValue, cap, ops))
  {
    RunTotal(ty, zeroValue, cap, ops);
    if ops != [] {
      var before, op := ops[..|ops| - 1], ops[|ops| - 1];
      assert op.Put?;
      RunAffordable(ty, zeroValue, cap, before);
      AffordableStep(ty, zeroValue, Run(ty, zeroValue, cap, before).value, cap, |before|,
                     Reinserted(ty, zeroValue, cap, before), op.key, op.value);
    }
  }

  /** After any run of sets, the capacity is at most two more than it was at first, or twice the stored keys. */
  lemma CapacityBound<K, V>(ty: KeyType<K>, zeroValue: V, cap: nat, ops: seq<Op<K, V>>)
    requires 0 < cap && PutsOnly(ops)
    ensures var r := Run(ty, zeroValue, cap, ops);
            r.Some? && r.value.count < Cap(r.value) && (Cap(r.value) <= cap + 2 || Cap(r.value) <= 2 * r.value.count)
  {
    RunAffordable(ty, zeroValue, cap, ops);
  }

  /** All growths of a run of sets together reinsert at most two slots for every set. */
  lemma AmortizedGrowth<K, V>(ty: KeyType<K>, zeroValue: V, cap: nat, ops: seq<Op<K, V>>)
    requires 0 < cap && PutsOnly(ops)
    ensures Reinserted(ty, zeroValue, cap, ops) <= 2 * |ops|
  {
    RunAffordable(ty, zeroValue, cap, ops);
  }

  /** The capacity of a run of sets is the first one times a power of two, if the first one is at least two. */
  lemma {:induction false} CapacityDoubles<K, V>(
    ty: KeyType<K>, zeroValue: V, cap: nat, ops: seq<Op<K, V>>) returns (k: nat)
    requires 2 <= cap && PutsOnly(ops)
    ensures var r := Run(ty, zeroValue, cap, ops); r.Some? && Sound(r.value) && Cap(r.value) == cap * Power2(k)
  {
    RunTotal(ty, zeroValue, cap, ops);
    k := 0;
    if ops != [] {
      var before, op := ops[..|ops| - 1], ops[|ops| - 1];
      assert op.Put?;
      k := CapacityDoubles(ty, zeroValue, cap, before);
      var t := Run(ty, zeroValue, cap, before).value;
      SetCapacity(ty, zeroValue, t, op.key, op.value);
      AtLeast(cap, k);
      if Cap(Run(ty, zeroValue, cap, ops).value) != Cap(t) { k := k + 1; }
    }
  }

  function Power2(k: nat): (p: nat)
    ensures 1 <= p
  {
    if k == 0 then 1 else 2 * Power2(k - 1)
  }

  lemma AtLeast(cap: nat, k: nat)
    ensures cap <= cap * Power2(k) && cap * Power2(k + 1) == 2 * (cap * Power2(k))
  {
  }
}
