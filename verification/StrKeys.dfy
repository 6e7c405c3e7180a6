/**
 * String keys. `str_t` is a lawful key type, and its all-zero key, the null string of length zero,
 * equals every empty string. So all other strings are always looked up right, and runs of a few
 * operations show what becomes of the empty one.
 */
module StrKeys {
  import opened Wrappers
  import opened HashTable
  import opened HashTableLemmas
  import opened HashTableGrowth
  import opened HashTableHistory
  import opened HashTableRuns
  import opened HashTablePuts
  import opened HashTableBuckets
  import opened HashTableWitnesses
  import Utf8
  import Str

  type Key = seq<Utf8.Byte>

  /** A string key stands for its contents; `str_p_eq` and `str_p_hash` see nothing else of it. */
  function StrKey(): KeyType<Key> {
    KeyType(s => Str.StrHash(s) as nat, (a, b) => a == b, [])
  }

  lemma StrLawful()
    ensures Lawful(StrKey())
  {
  }

  lemma {:induction false} LastPutSome<V>(ops: seq<Op<Key, V>>, key: Key)
    requires PutsOnly(ops)
    ensures LastPut(StrKey(), ops, key).Some? <==> exists i :: 0 <= i < |ops| && ops[i].key == key
  {
    if ops != [] {
      var before := ops[..|ops| - 1];
      assert ops[|ops| - 1].Put?;
      LastPutSome(before, key);
      assert forall i :: 0 <= i < |before| ==> before[i] == ops[i];
      assert ops[|ops| - 1].key == key || forall i :: 0 <= i < |ops| && ops[i].key == key ==> i < |before|;
    }
  }

  /** No set of the first `m` makes the map grow while the empty string is a key. */
  ghost predicate NeverGrowsOverEmpty<V>(zeroValue: V, cap: nat, ops: seq<Op<Key, V>>, m: nat)
    requires 0 < cap && PutsOnly(ops) && m <= |ops|
  {
    forall i :: 0 <= i < m && GrowsNext(StrKey(), zeroValue, cap, ops[..i], ops[i].key) ==>
                forall j :: 0 <= j < i ==> ops[j].key != []
  }

  lemma StrZeroSafe<V>(zeroValue: V, cap: nat, ops: seq<Op<Key, V>>, m: nat)
    requires 0 < cap && PutsOnly(ops) && m <= |ops|
    ensures ZeroSafe(StrKey(), zeroValue, cap, ops[..m]) <==> NeverGrowsOverEmpty(zeroValue, cap, ops, m)
  {
    StrLawful();
    PutsZeroSafe(StrKey(), zeroValue, cap, ops[..m]);
    assert forall i :: 0 <= i < m ==> ops[..m][..i] == ops[..i] && ops[..m][i] == ops[i];
    forall i | 0 <= i < m
      ensures LastPut(StrKey(), ops[..i], []).None? <==> forall j :: 0 <= j < i ==> ops[j].key != []
    {
      LastPutSome(ops[..i], []);
      assert forall j :: 0 <= j < i ==> ops[..i][j] == ops[j];
    }
  }

  /**
   * A map from strings answers every lookup throughout a run of sets if and only if it never grows while
   * the empty string is a key.
   */
  lemma StrMapExactlyWhen<V(!new)>(zeroValue: V, cap: nat, ops: seq<Op<Key, V>>)
    requires 0 < cap && PutsOnly(ops)
    ensures (forall n :: 0 <= n <= |ops| ==> Agrees(StrKey(), zeroValue, cap, ops[..n])) <==>
            NeverGrowsOverEmpty(zeroValue, cap, ops, |ops|)
  {
    StrLawful();
    AgreesThroughout(StrKey(), zeroValue, cap, ops);
    StrZeroSafe(zeroValue, cap, ops, |ops|);
    assert ops[..|ops|] == ops;
  }

  /** It iterates rightly throughout if and only if the empty string is never set after a growth over it. */
  lemma StrIteratesExactlyWhen<V(!new)>(zeroValue: V, cap: nat, ops: seq<Op<Key, V>>)
    requires 0 < cap && PutsOnly(ops)
    ensures (forall n :: 0 <= n <= |ops| ==> Iterates(StrKey(), zeroValue, cap, ops[..n])) <==>
            (forall n :: 0 <= n < |ops| && ops[n].key == [] ==> NeverGrowsOverEmpty(zeroValue, cap, ops, n))
  {
    StrLawful();
    PutsIterateThroughout(StrKey(), zeroValue, cap, ops);
    forall n | 0 <= n < |ops|
      ensures ZeroSafe(StrKey(), zeroValue, cap, ops[..n]) <==> NeverGrowsOverEmpty(zeroValue, cap, ops, n)
    {
      StrZeroSafe(zeroValue, cap, ops, n);
    }
  }

  // ---------------------------------------------------------------- runs that go wrong

  /** Two sets on a map of capacity two: the second makes the map grow, and the empty key is lost. */
  lemma EmptyKeyLost<V>(zeroValue: V, v: V, w: V)
    ensures var ops := [Put([], v), Put([97], w)];
            Agrees(StrKey(), zeroValue, 2, ops[..1]) && !Agrees(StrKey(), zeroValue, 2, ops)
  {
    StrLawful();
    var ops := [Put([], v), Put([97], w)];
    assert ops[..1] == [Put([], v)] && ops == Losing(StrKey(), [97], v, w);
    ZeroKeyLost(StrKey(), zeroValue, [97], v, w);
  }

  /**
   * Setting the empty key once more stores it twice: iteration visits it twice, and its first slot is not
   * found by identity.
   */
  lemma EmptyKeyTwice<V>(zeroValue: V, v: V, w: V, u: V)
    ensures var ops := [Put([], v), Put([97], w), Put([], u)];
            var r := Run(StrKey(), zeroValue, 2, ops);
            && r.Some? && r.value.count == 3 == |r.value.keys| - 1 && Others(StrKey(), r.value.keys, 3) == 1
            && !Iterates(StrKey(), zeroValue, 2, ops) && !InternsAgree(StrKey(), zeroValue, 2, ops)
  {
    StrLawful();
    assert [Put([], v), Put([97], w), Put([], u)] == Losing(StrKey(), [97], v, w) + [Put([], u)];
    ZeroKeyTwice(StrKey(), zeroValue, [97], v, w, u);
  }

  lemma FourStrings()
    ensures Different(StrKey(), [[97], [98], [99], [100]])
  {
    var keys: seq<Key> := [[97], [98], [99], [100]];
    assert forall i :: 0 <= i < 4 ==> |keys[i]| == 1;
    assert keys[0][0] == 97 && keys[1][0] == 98 && keys[2][0] == 99 && keys[3][0] == 100;
  }

  /**
   * Three sets on a map of capacity two, none of the empty string: all four buckets are occupied, and an
   * absent key has a null bucket.
   */
  lemma FullTable<V>(zeroValue: V, v: V)
    ensures var r := Run(StrKey(), zeroValue, 2, Filling([97], [98], [99], v));
            && r.Some? && r.value.count == 3 && Cap(r.value) == UsedCount(r.value.buckets) == 4
            && !Bijective(r.value) && GetBucket(StrKey(), r.value, [100]) == None
  {
    StrLawful();
    FourStrings();
    TableFills(StrKey(), zeroValue, [97], [98], [99], [100], v);
  }

  /** Growing a new map makes it answer for the empty string, which was never set. */
  lemma GrowthInventsEmptyKey<V>(zeroValue: V)
    ensures var r := Run(StrKey(), zeroValue, 1, [Fit(1)]);
            && r.Some? && r.value.count == 0 && Get(StrKey(), r.value, []) == Some(zeroValue)
            && !Agrees(StrKey(), zeroValue, 1, [Fit(1)])
  {
    StrLawful();
    GrowthInvents(StrKey(), zeroValue, [Fit(1)]);
    GrowthDisagrees(StrKey(), zeroValue, [Fit(1)]);
  }
}
