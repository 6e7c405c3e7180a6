/**
 * Runs that consist of sets. There the zero key goes wrong in one way only: it is lost when a set
 * makes the map grow while it is stored. The conditions of HashTableRuns.dfy say just that.
 */
module HashTablePuts {
  import opened Wrappers
  import opened HashTable
  import opened HashTableLemmas
  import opened HashTableGrowth
  import opened HashTableHistory
  import opened HashTableRuns

  /** The zero key never leads to a spare slot; it is stored exactly if it was ever set. */
  lemma {:induction false} NeverSpare<K(!new), V>(ty: KeyType<K>, zeroValue: V, cap: nat, ops: seq<Op<K, V>>)
    requires Lawful(ty) && 0 < cap && PutsOnly(ops)
    ensures var s := OutlineOf(ty, zeroValue, cap, ops);
            && (s.zero.Some? ==> s.zero.value.slot < s.count && LastPut(ty, ops, ty.zero).Some?)
            && (LastPut(ty, ops, ty.zero).Some? <==> s.others < s.count)
  {
    if ops != [] {
      var before, op := ops[..|ops| - 1], ops[|ops| - 1];
      assert op.Put?;
      NeverSpare(ty, zeroValue, cap, before);
      assert IsZero(ty, op.key) <==> ty.eq(op.key, ty.zero);
    }
  }

  // ---------------------------------------------------------------- lookups

  lemma {:induction false} PutsZeroSafe<K(!new), V>(ty: KeyType<K>, zeroValue: V, cap: nat, ops: seq<Op<K, V>>)
    requires Lawful(ty) && 0 < cap && PutsOnly(ops)
    ensures ZeroSafe(ty, zeroValue, cap, ops) <==>
            forall n :: 0 <= n < |ops| && GrowsNext(ty, zeroValue, cap, ops[..n], ops[n].key) ==>
                        LastPut(ty, ops[..n], ty.zero).None?
  {
    forall n | 0 <= n < |ops|
      ensures KeepsZero(ty, zeroValue, cap, ops[..n], ops[n]) <==>
              (GrowsNext(ty, zeroValue, cap, ops[..n], ops[n].key) ==> LastPut(ty, ops[..n], ty.zero).None?)
    {
      assert ops[n].Put?;
      NeverSpare(ty, zeroValue, cap, ops[..n]);
    }
  }

  /**
   * A run of sets agrees with its history throughout if and only if no set makes the map grow while the
   * zero key is stored.
   */
  lemma PutsAgreeThroughout<K(!new), V(!new)>(ty: KeyType<K>, zeroValue: V, cap: nat, ops: seq<Op<K, V>>)
    requires Lawful(ty) && 0 < cap && PutsOnly(ops)
    ensures (forall n :: 0 <= n <= |ops| ==> Agrees(ty, zeroValue, cap, ops[..n])) <==>
            (forall n :: 0 <= n < |ops| && GrowsNext(ty, zeroValue, cap, ops[..n], ops[n].key) ==>
                         LastPut(ty, ops[..n], ty.zero).None?)
  {
    AgreesThroughout(ty, zeroValue, cap, ops);
    PutsZeroSafe(ty, zeroValue, cap, ops);
  }

  // ---------------------------------------------------------------- iteration and identity

  lemma StepsSnoc<A(!new)>(keeps: (seq<A>, A) -> bool, before: seq<A>, op: A)
    ensures var ops := before + [op];
            (forall n :: 0 <= n < |ops| ==> keeps(ops[..n], ops[n])) <==>
            (forall n :: 0 <= n < |before| ==> keeps(before[..n], before[n])) && keeps(before, op)
  {
    var ops := before + [op];
    assert forall n :: 0 <= n < |before| ==> ops[..n] == before[..n] && ops[n] == before[n];
    assert ops[..|before|] == before && ops[|before|] == op;
  }

  lemma ZeroSafeSnoc<K(!new), V(!new)>(ty: KeyType<K>, zeroValue: V, cap: nat, before: seq<Op<K, V>>, op: Op<K, V>)
    requires 0 < cap
    ensures ZeroSafe(ty, zeroValue, cap, before + [op]) <==>
            ZeroSafe(ty, zeroValue, cap, before) && KeepsZero(ty, zeroValue, cap, before, op)
  {
    StepsSnoc((o, x) => KeepsZero(ty, zeroValue, cap, o, x), before, op);
  }

  lemma EntriesSafeSnoc<K(!new), V(!new)>(ty: KeyType<K>, zeroValue: V, cap: nat, before: seq<Op<K, V>>, op: Op<K, V>)
    requires 0 < cap
    ensures EntriesSafe(ty, zeroValue, cap, before + [op]) <==>
            EntriesSafe(ty, zeroValue, cap, before) && KeepsEntries(ty, zeroValue, cap, before, op)
  {
    StepsSnoc((o, x) => KeepsEntries(ty, zeroValue, cap, o, x), before, op);
  }

  /** The zero key was set and is not found. */
  predicate Lost<K, V>(ty: KeyType<K>, zeroValue: V, cap: nat, ops: seq<Op<K, V>>)
    requires 0 < cap
  {
    OutlineOf(ty, zeroValue, cap, ops).zero.None? && LastPut(ty, ops, ty.zero).Some?
  }

  lemma LostStep<K(!new), V>(ty: KeyType<K>, zeroValue: V, cap: nat, before: seq<Op<K, V>>, op: Op<K, V>)
    requires Lawful(ty) && 0 < cap && PutsOnly(before) && op.Put? && KeepsEntries(ty, zeroValue, cap, before, op)
    ensures Lost(ty, zeroValue, cap, before + [op]) <==>
            Lost(ty, zeroValue, cap, before) || !KeepsZero(ty, zeroValue, cap, before, op)
  {
    NeverSpare(ty, zeroValue, cap, before);
    assert (before + [op])[..|before|] == before;
    assert IsZero(ty, op.key) <==> ty.eq(op.key, ty.zero);
  }

  /** Until it is set again, the zero key is lost exactly after a growth over it. */
  lemma {:induction false} LostExactlyWhen<K(!new), V(!new)>(ty: KeyType<K>, zeroValue: V, cap: nat, ops: seq<Op<K, V>>)
    requires Lawful(ty) && 0 < cap && PutsOnly(ops) && EntriesSafe(ty, zeroValue, cap, ops)
    ensures Lost(ty, zeroValue, cap, ops) <==> !ZeroSafe(ty, zeroValue, cap, ops)
  {
    if ops != [] {
      var before, op := ops[..|ops| - 1], ops[|ops| - 1];
      assert before + [op] == ops && op.Put?;
      assert PutsOnly(before) by { assert forall n :: 0 <= n < |before| ==> before[n] == ops[n]; }
      EntriesSafeSnoc(ty, zeroValue, cap, before, op);
      ZeroSafeSnoc(ty, zeroValue, cap, before, op);
      LostExactlyWhen(ty, zeroValue, cap, before);
      LostStep(ty, zeroValue, cap, before, op);
    }
  }

  /** No set of the zero key comes after a growth over it. */
  ghost predicate NoLateZero<K, V>(ty: KeyType<K>, zeroValue: V, cap: nat, ops: seq<Op<K, V>>)
    requires 0 < cap
  {
    forall n :: 0 <= n < |ops| && ops[n].Put? && IsZero(ty, ops[n].key) ==> ZeroSafe(ty, zeroValue, cap, ops[..n])
  }

  lemma NoLateZeroSnoc<K(!new), V(!new)>(ty: KeyType<K>, zeroValue: V, cap: nat, before: seq<Op<K, V>>, op: Op<K, V>)
    requires 0 < cap
    ensures NoLateZero(ty, zeroValue, cap, before + [op]) <==>
            && NoLateZero(ty, zeroValue, cap, before)
            && (op.Put? && IsZero(ty, op.key) ==> ZeroSafe(ty, zeroValue, cap, before))
  {
    StepsSnoc((o, x: Op<K, V>) => x.Put? && IsZero(ty, x.key) ==> ZeroSafe(ty, zeroValue, cap, o), before, op);
  }

  lemma {:induction false} PutsEntriesSafe<K(!new), V(!new)>(ty: KeyType<K>, zeroValue: V, cap: nat, ops: seq<Op<K, V>>)
    requires Lawful(ty) && 0 < cap && PutsOnly(ops)
    ensures EntriesSafe(ty, zeroValue, cap, ops) <==> NoLateZero(ty, zeroValue, cap, ops)
  {
    if ops != [] {
      var before, op := ops[..|ops| - 1], ops[|ops| - 1];
      assert before + [op] == ops && op.Put?;
      assert PutsOnly(before) by { assert forall n :: 0 <= n < |before| ==> before[n] == ops[n]; }
      EntriesSafeSnoc(ty, zeroValue, cap, before, op);
      NoLateZeroSnoc(ty, zeroValue, cap, before, op);
      PutsEntriesSafe(ty, zeroValue, cap, before);
      if EntriesSafe(ty, zeroValue, cap, before) {
        LostExactlyWhen(ty, zeroValue, cap, before);
        NeverSpare(ty, zeroValue, cap, before);
      }
    }
  }

  /**
   * In a run of sets, iteration is right throughout if and only if the zero key is never set after a growth
   * over it.
   */
  lemma PutsIterateThroughout<K(!new), V(!new)>(ty: KeyType<K>, zeroValue: V, cap: nat, ops: seq<Op<K, V>>)
    requires Lawful(ty) && 0 < cap && PutsOnly(ops)
    ensures (forall n :: 0 <= n <= |ops| ==> Iterates(ty, zeroValue, cap, ops[..n])) <==>
            NoLateZero(ty, zeroValue, cap, ops)
  {
    IteratesThroughout(ty, zeroValue, cap, ops);
    PutsEntriesSafe(ty, zeroValue, cap, ops);
  }

  lemma InternsStep<K(!new), V>(ty: KeyType<K>, zeroValue: V, cap: nat, before: seq<Op<K, V>>, op: Op<K, V>)
    requires Lawful(ty) && 0 < cap && PutsOnly(before) && op.Put? && InternsAgree(ty, zeroValue, cap, before)
    ensures InternsAgree(ty, zeroValue, cap, before + [op]) <==> KeepsEntries(ty, zeroValue, cap, before, op)
  {
    InternsExactlyWhen(ty, zeroValue, cap, before);
    InternsExactlyWhen(ty, zeroValue, cap, before + [op]);
    NeverSpare(ty, zeroValue, cap, before);
    assert (before + [op])[..|before|] == before;
  }

  /**
   * In a run of sets, lookup by identity is right throughout if and only if the zero key is never set after
   * a growth over it.
   */
  lemma PutsInternThroughout<K(!new), V(!new)>(ty: KeyType<K>, zeroValue: V, cap: nat, ops: seq<Op<K, V>>)
    requires Lawful(ty) && 0 < cap && PutsOnly(ops)
    ensures (forall n :: 0 <= n <= |ops| ==> InternsAgree(ty, zeroValue, cap, ops[..n])) <==>
            NoLateZero(ty, zeroValue, cap, ops)
  {
    InternsExactlyWhen(ty, zeroValue, cap, []);
    var p := o => PutsOnly(o) ==> InternsAgree(ty, zeroValue, cap, o);
    var keeps := (o, op) => PutsOnly(o + [op]) ==> KeepsEntries(ty, zeroValue, cap, o, op);
    forall before, op | p(before) ensures p(before + [op]) <==> keeps(before, op) {
      if PutsOnly(before + [op]) {
        assert op == (before + [op])[|before|];
        assert PutsOnly(before) by { assert forall n :: 0 <= n < |before| ==> before[n] == (before + [op])[n]; }
        InternsStep(ty, zeroValue, cap, before, op);
      }
    }
    ThroughoutExactlyWhen(p, keeps, ops);
    assert forall n :: 0 <= n <= |ops| ==> PutsOnly(ops[..n]);
    assert forall n :: 0 <= n < |ops| ==> PutsOnly(ops[..n] + [ops[n]]);
    assert forall n :: 0 <= n <= |ops| ==> (p(ops[..n]) <==> InternsAgree(ty, zeroValue, cap, ops[..n]));
    PutsEntriesSafe(ty, zeroValue, cap, ops);
  }
}
