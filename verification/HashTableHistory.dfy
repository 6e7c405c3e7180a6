/**
 * Runs of sets and growth calls on a fresh map, and what the history alone tells of the table they
 * leave: an outline of a few numbers, and the slot and value that the all-zero key leads to. Every
 * run completes, and its table matches the outline.
 */
module HashTableHistory {
  import opened Wrappers
  import opened HashTable
  import opened HashTableLemmas
  import opened HashTableGrowth
  import opened HashTableSet

  /** A set, or a call of `hashmap_grow` by the user. */
  datatype Op<K, V> = Put(key: K, value: V) | Fit(fitCap: nat)

  /** The map after a run on a fresh map of capacity `cap`; lookups do not change it. */
  function Run<K, V>(ty: KeyType<K>, zeroValue: V, cap: nat, ops: seq<Op<K, V>>): (r: Option<Table<K, V>>)
    requires 0 < cap
    ensures r.Some? ==> WellFormed(r.value)
  {
    if ops == [] then Some(New(ty, zeroValue, cap))
    else
      var before := Run(ty, zeroValue, cap, ops[..|ops| - 1]);
      if before.None? || before.value.count >= Cap(before.value) then None
      else
        match ops[|ops| - 1]
        case Put(key, value) => Set(ty, zeroValue, before.value, key, value)
        case Fit(fitCap) => Grow(ty, zeroValue, before.value, fitCap)
  }

  ghost predicate PutsOnly<K, V>(ops: seq<Op<K, V>>) {
    forall n :: 0 <= n < |ops| ==> ops[n].Put?
  }

  /** Runs of sets complete for every key type, and leave a sound table. */
  lemma {:induction false} RunTotal<K, V>(ty: KeyType<K>, zeroValue: V, cap: nat, ops: seq<Op<K, V>>)
    requires 0 < cap && PutsOnly(ops)
    ensures var r := Run(ty, zeroValue, cap, ops); r.Some? && Sound(r.value)
  {
    if ops == [] {
      UsedCountFresh(cap);
    } else {
      var op := ops[|ops| - 1];
      RunTotal(ty, zeroValue, cap, ops[..|ops| - 1]);
      SetTotal(ty, zeroValue, Run(ty, zeroValue, cap, ops[..|ops| - 1]).value, op.key, op.value);
    }
  }

  // ---------------------------------------------------------------- the history

  /** The reference: the value given by the last set with an equal key. */
  function LastPut<K, V>(ty: KeyType<K>, ops: seq<Op<K, V>>, key: K): Option<V> {
    if ops == [] then None
    else
      var op := ops[|ops| - 1];
      if op.Put? && ty.eq(op.key, key) then Some(op.value) else LastPut(ty, ops[..|ops| - 1], key)
  }

  /** The distinct keys of a run in order of their first insertion. */
  function FirstKeys<K, V>(ty: KeyType<K>, ops: seq<Op<K, V>>): seq<K> {
    if ops == [] then []
    else
      var before, op := ops[..|ops| - 1], ops[|ops| - 1];
      if op.Fit? || LastPut(ty, before, op.key).Some? then FirstKeys(ty, before)
      else FirstKeys(ty, before) + [op.key]
  }

  lemma {:induction false} LastPutEqual<K(!new), V>(ty: KeyType<K>, ops: seq<Op<K, V>>, a: K, b: K)
    requires Lawful(ty) && ty.eq(a, b)
    ensures LastPut(ty, ops, a) == LastPut(ty, ops, b)
  {
    if ops != [] {
      var op := ops[|ops| - 1];
      assert op.Put? ==> (ty.eq(op.key, a) <==> ty.eq(op.key, b));
      LastPutEqual(ty, ops[..|ops| - 1], a, b);
    }
  }

  // ---------------------------------------------------------------- the outline

  /** Where looking up the zero key leads. A slot behind the stored ones is a spare one. */
  datatype Spot<V> = Spot(slot: nat, value: V)

  /** Capacity, stored keys, stored keys unequal to zero, occupied buckets, and the zero key's slot if it is found. */
  datatype Outline<V> = Outline(cap: nat, count: nat, others: nat, used: nat, zero: Option<Spot<V>>)

  predicate Sensible<V>(s: Outline<V>) {
    && s.others <= s.count < s.cap && s.used <= s.count + 1
    && (s.zero.Some? ==> s.zero.value.slot < s.cap - 1)
  }

  /** After a growth each other key has one bucket, and the zero key one that points at the last old slot. */
  function Grown<V>(zeroValue: V, s: Outline<V>, fitCap: nat): Outline<V>
    requires 0 < s.cap
  {
    s.(cap := NewCap(s.cap, fitCap), used := s.others + 1, zero := Some(Spot(s.cap - 1, zeroValue)))
  }

  /** A key is appended in slot `count`. If that is the slot the zero key led to, another key takes it over. */
  function Appended<V>(s: Outline<V>, isZero: bool, value: V): Outline<V> {
    s.(count := s.count + 1,
       others := s.others + if isZero then 0 else 1,
       used := s.used + if isZero && s.zero.Some? then 0 else 1,
       zero := if isZero then Some(Spot(s.count, value))
               else if s.zero.Some? && s.zero.value.slot == s.count then None
               else s.zero)
  }

  /** One operation, given whether its key is zero and whether it is found. */
  function Next<V>(zeroValue: V, s: Outline<V>, isZero: bool, found: bool, value: V): (s': Outline<V>)
    requires Sensible(s) && (isZero ==> found == s.zero.Some?)
    ensures Sensible(s')
  {
    if found then if isZero then s.(zero := Some(Spot(s.zero.value.slot, value))) else s
    else Appended(if s.count == s.cap - 1 then Grown(zeroValue, s, 2) else s, isZero, value)
  }

  /** A key is found after run `ops`: the zero key as the outline says, another one if it was ever set. */
  predicate IsFound<K, V>(ty: KeyType<K>, ops: seq<Op<K, V>>, s: Outline<V>, key: K) {
    if IsZero(ty, key) then s.zero.Some? else LastPut(ty, ops, key).Some?
  }

  /** The outline of the table that a run leaves, told from the history. */
  function OutlineOf<K, V>(ty: KeyType<K>, zeroValue: V, cap: nat, ops: seq<Op<K, V>>): (s: Outline<V>)
    requires 0 < cap
    ensures Sensible(s)
  {
    if ops == [] then Outline(cap, 0, 0, 0, None)
    else
      var before := ops[..|ops| - 1];
      var s := OutlineOf(ty, zeroValue, cap, before);
      match ops[|ops| - 1]
      case Put(key, value) => Next(zeroValue, s, IsZero(ty, key), IsFound(ty, before, s, key), value)
      case Fit(fitCap) => if s.cap - s.count > fitCap then s else Grown(zeroValue, s, fitCap)
  }

  // ---------------------------------------------------------------- every run matches its outline

  /** The numbers of the outline are those of the table. */
  ghost predicate Counts<K, V>(ty: KeyType<K>, t: Table<K, V>, s: Outline<V>) {
    && WellFormed(t) && t.count <= Cap(t)
    && Cap(t) == s.cap && t.count == s.count
    && Others(ty, t.keys, t.count) == s.others && UsedCount(t.buckets) == s.used
    && (match s.zero
        case None => Found(ty, t, ty.zero) == None
        case Some(spot) => Found(ty, t, ty.zero) == Some(spot.slot) && t.values[spot.slot] == spot.value)
  }

  ghost predicate Matches<K, V>(ty: KeyType<K>, zeroValue: V, t: Table<K, V>, s: Outline<V>) {
    Rests(ty, zeroValue, t) && Counts(ty, t, s)
  }

  /** The stored keys unequal to zero are those ever set, each with its latest value. */
  ghost predicate Remembers<K(!new), V>(ty: KeyType<K>, keys: seq<K>, values: seq<V>, ops: seq<Op<K, V>>) {
    && |keys| == |values|
    && (forall s :: 0 <= s < |keys| && !IsZero(ty, keys[s]) ==> LastPut(ty, ops, keys[s]) == Some(values[s]))
    && (forall k :: !IsZero(ty, k) && LastPut(ty, ops, k).Some? ==> Stored(ty, keys, |keys|, k))
  }

  ghost predicate Tracks<K(!new), V>(ty: KeyType<K>, zeroValue: V, t: Table<K, V>, cap: nat, ops: seq<Op<K, V>>)
    requires 0 < cap
  {
    && Matches(ty, zeroValue, t, OutlineOf(ty, zeroValue, cap, ops))
    && Remembers(ty, t.keys[..t.count], t.values[..t.count], ops)
  }

  /** The table finds a key exactly when the history says so. */
  lemma FoundAsTold<K(!new), V>(ty: KeyType<K>, zeroValue: V, t: Table<K, V>, cap: nat, ops: seq<Op<K, V>>, key: K)
    requires Lawful(ty) && 0 < cap && Tracks(ty, zeroValue, t, cap, ops)
    ensures Found(ty, t, key).Some? <==> IsFound(ty, ops, OutlineOf(ty, zeroValue, cap, ops), key)
  {
    if IsZero(ty, key) {
      BucketOfEqual(ty, t, ty.zero, key);
    } else {
      FoundMeaning(ty, t, t.count, key);
      var keys := t.keys[..t.count];
      if LastPut(ty, ops, key).Some? {
        var s :| 0 <= s < |keys| && ty.eq(keys[s], key);
        assert ty.eq(t.keys[s], key);
      }
      if s :| 0 <= s < t.count && ty.eq(t.keys[s], key) {
        assert keys[s] == t.keys[s] && !IsZero(ty, keys[s]);
        LastPutEqual(ty, ops, keys[s], key);
      }
    }
  }

  lemma RememberPut<K(!new), V>(ty: KeyType<K>, keys: seq<K>, values: seq<V>, ops: seq<Op<K, V>>, key: K, value: V)
    requires Lawful(ty) && Remembers(ty, keys, values, ops) && (IsZero(ty, key) || !Stored(ty, keys, |keys|, key))
    ensures Remembers(ty, keys + [key], values + [value], ops + [Put(key, value)])
  {
    var keys', ops' := keys + [key], ops + [Put(key, value)];
    assert ops'[..|ops'| - 1] == ops;
    assert forall s :: 0 <= s < |keys| && !IsZero(ty, keys[s]) ==> !ty.eq(key, keys[s]);
    forall k | !IsZero(ty, k) && LastPut(ty, ops', k).Some? ensures Stored(ty, keys', |keys'|, k) {
      if ty.eq(key, k) {
        assert keys'[|keys|] == key;
      } else {
        var s :| 0 <= s < |keys| && ty.eq(keys[s], k);
        assert ty.eq(keys'[s], k);
      }
    }
  }

  /** Overwriting the value of a key found in slot `f`, which is a spare one only for the zero key. */
  lemma RememberOver<K(!new), V>(
    ty: KeyType<K>, keys: seq<K>, values: seq<V>, ops: seq<Op<K, V>>, key: K, value: V, f: nat)
    requires Lawful(ty) && Remembers(ty, keys, values, ops) && OthersDistinct(ty, keys, |keys|)
    requires if f < |keys| then ty.eq(keys[f], key) else IsZero(ty, key)
    ensures Remembers(ty, keys, if f < |keys| then values[f := value] else values, ops + [Put(key, value)])
  {
    var ops' := ops + [Put(key, value)];
    assert ops'[..|ops'| - 1] == ops;
    forall s | 0 <= s < |keys| && !IsZero(ty, keys[s])
      ensures LastPut(ty, ops', keys[s]) == Some((if f < |keys| then values[f := value] else values)[s])
    {
      if ty.eq(key, keys[s]) {
        assert ty.eq(keys[s], key) && !IsZero(ty, key);
        SameSlot(ty, keys, |keys|, s, f, key);
      }
    }
    forall k | !IsZero(ty, k) && LastPut(ty, ops', k).Some? ensures Stored(ty, keys, |keys|, k) {
      if ty.eq(key, k) { assert f < |keys| && ty.eq(keys[f], k); }
    }
  }

  lemma RememberFit<K(!new), V>(ty: KeyType<K>, keys: seq<K>, values: seq<V>, ops: seq<Op<K, V>>, fitCap: nat)
    requires Remembers(ty, keys, values, ops)
    ensures Remembers(ty, keys, values, ops + [Fit(fitCap)])
  {
    var ops' := ops + [Fit(fitCap)];
    assert ops'[..|ops'| - 1] == ops;
    assert forall k :: LastPut(ty, ops', k) == LastPut(ty, ops, k);
  }

  lemma CountGrown<K, V>(ty: KeyType<K>, zeroValue: V, t: Table<K, V>, s: Outline<V>, fitCap: nat, g: Table<K, V>)
    requires Counts(ty, t, s) && WellFormed(g) && g.count == t.count && Cap(g) == NewCap(Cap(t), fitCap) > Cap(t)
    requires forall i :: 0 <= i < t.count ==> g.keys[i] == t.keys[i]
    requires Found(ty, g, ty.zero) == Some(Cap(t) - 1) && g.values[Cap(t) - 1] == zeroValue
    requires UsedCount(g.buckets) == Others(ty, t.keys, t.count) + 1
    ensures Counts(ty, g, Grown(zeroValue, s, fitCap))
  {
    OthersSame(ty, t.keys, g.keys, t.count);
  }

  lemma MatchGrown<K(!new), V>(ty: KeyType<K>, zeroValue: V, t: Table<K, V>, s: Outline<V>, fitCap: nat)
    requires Lawful(ty) && Matches(ty, zeroValue, t, s) && s.cap - s.count <= fitCap
    ensures var r := Grow(ty, zeroValue, t, fitCap);
            r.Some? && Matches(ty, zeroValue, r.value, Grown(zeroValue, s, fitCap))
  {
    GrowForm(ty, zeroValue, t, fitCap);
    CountGrown(ty, zeroValue, t, s, fitCap, Grow(ty, zeroValue, t, fitCap).value);
  }

  lemma MatchRoom<K(!new), V>(ty: KeyType<K>, zeroValue: V, t: Table<K, V>, s: Outline<V>, fitCap: nat)
    requires Lawful(ty) && Matches(ty, zeroValue, t, s)
    ensures var r := Grow(ty, zeroValue, t, fitCap);
            && r.Some?
            && Matches(ty, zeroValue, r.value, if s.cap - s.count > fitCap then s else Grown(zeroValue, s, fitCap))
  {
    if s.cap - s.count <= fitCap { MatchGrown(ty, zeroValue, t, s, fitCap); }
  }

  lemma ZeroAsTold<K(!new), V>(ty: KeyType<K>, zeroValue: V, t: Table<K, V>, s: Outline<V>, key: K)
    requires Lawful(ty) && Matches(ty, zeroValue, t, s) && IsZero(ty, key)
    ensures Found(ty, t, key).Some? == s.zero.Some?
    ensures s.zero.Some? ==> Found(ty, t, key) == Some(s.zero.value.slot)
    ensures Get(ty, t, key) == match s.zero case None => None case Some(spot) => Some(spot.value)
  {
    BucketOfEqual(ty, t, ty.zero, key);
    GetFound(ty, t, t.count, key);
  }

  /** A pair filed in the slot behind the stored ones. */
  lemma CountAppended<K(!new), V>(ty: KeyType<K>, g: Table<K, V>, t': Table<K, V>, s: Outline<V>, key: K, value: V)
    requires Counts(ty, g, s) && WellFormed(t') && Cap(t') == Cap(g) && t'.count == g.count + 1 <= Cap(g)
    requires t'.keys == g.keys[g.count := key] && t'.values == g.values[g.count := value]
    requires FoundFiled(ty, g, t', g.count)
    ensures Counts(ty, t', Appended(s, IsZero(ty, key), value))
  {
    OthersSame(ty, g.keys, t'.keys, g.count);
  }

  lemma MatchNew<K(!new), V>(ty: KeyType<K>, zeroValue: V, t: Table<K, V>, s: Outline<V>, key: K, value: V)
    requires Lawful(ty) && Sensible(s) && Matches(ty, zeroValue, t, s) && Found(ty, t, key).None?
    requires IsZero(ty, key) ==> s.zero.None?
    ensures var r := Set(ty, zeroValue, t, key, value);
            r.Some? && Matches(ty, zeroValue, r.value, Next(zeroValue, s, IsZero(ty, key), false, value))
  {
    SetNew(ty, zeroValue, t, key, value);
    var g := Room(ty, zeroValue, t).value;
    if s.count == s.cap - 1 { MatchRoom(ty, zeroValue, t, s, 2); }
    CountAppended(ty, g, Set(ty, zeroValue, t, key, value).value,
                  if s.count == s.cap - 1 then Grown(zeroValue, s, 2) else s, key, value);
  }

  lemma MatchFound<K(!new), V>(ty: KeyType<K>, zeroValue: V, t: Table<K, V>, s: Outline<V>, key: K, value: V)
    requires Lawful(ty) && Sensible(s) && Matches(ty, zeroValue, t, s) && Found(ty, t, key).Some?
    requires IsZero(ty, key) ==> s.zero.Some?
    ensures var r := Set(ty, zeroValue, t, key, value);
            r.Some? && Matches(ty, zeroValue, r.value, Next(zeroValue, s, IsZero(ty, key), true, value))
  {
    SetFound(ty, zeroValue, t, key, value);
    if IsZero(ty, key) {
      ZeroAsTold(ty, zeroValue, t, s, key);
    } else {
      assert s.zero.Some? && s.zero.value.slot == Found(ty, t, key).value ==> IsZero(ty, key);
    }
  }

  lemma PrefixOver<T>(xs: seq<T>, n: nat, i: nat, x: T)
    requires n <= |xs| && i < |xs|
    ensures xs[i := x][..n] == if i < n then xs[..n][i := x] else xs[..n]
  {
  }

  lemma DenseOver<K(!new), V>(ty: KeyType<K>, zeroValue: V, t: Table<K, V>, key: K, value: V)
    requires Lawful(ty) && Rests(ty, zeroValue, t) && Found(ty, t, key).Some?
    ensures var f, r := Found(ty, t, key).value, Set(ty, zeroValue, t, key, value);
            && r.Some? && r.value.count == t.count && r.value.keys == t.keys && r.value.values == t.values[f := value]
            && (f >= t.count ==> IsZero(ty, key))
  {
    SetFound(ty, zeroValue, t, key, value);
    if Found(ty, t, key).value >= t.count { BucketOfEqual(ty, t, ty.zero, key); }
  }

  /** What a set does to the stored keys and values. */
  lemma DensePut<K(!new), V>(ty: KeyType<K>, zeroValue: V, t: Table<K, V>, key: K, value: V)
    requires Lawful(ty) && Rests(ty, zeroValue, t)
    ensures var keys, values := t.keys[..t.count], t.values[..t.count];
            var f, r := Found(ty, t, key), Set(ty, zeroValue, t, key, value);
            && r.Some? && r.value.count <= |r.value.keys| && r.value.count <= |r.value.values|
            && r.value.keys[..r.value.count] == (if f.None? then keys + [key] else keys)
            && r.value.values[..r.value.count] ==
                 if f.None? then values + [value] else if f.value < t.count then values[f.value := value] else values
    ensures Found(ty, t, key).Some? && Found(ty, t, key).value >= t.count ==> IsZero(ty, key)
  {
    if Found(ty, t, key).Some? {
      DenseOver(ty, zeroValue, t, key, value);
      PrefixOver(t.values, t.count, Found(ty, t, key).value, value);
    } else {
      SetNew(ty, zeroValue, t, key, value);
    }
  }

  lemma RememberSet<K(!new), V>(ty: KeyType<K>, zeroValue: V, t: Table<K, V>, ops: seq<Op<K, V>>, key: K, value: V)
    requires Lawful(ty) && Rests(ty, zeroValue, t) && Remembers(ty, t.keys[..t.count], t.values[..t.count], ops)
    ensures var r := Set(ty, zeroValue, t, key, value);
            r.Some? && Remembers(ty, r.value.keys[..r.value.count], r.value.values[..r.value.count],
                ops + [Put(key, value)])
  {
    var keys, values := t.keys[..t.count], t.values[..t.count];
    DensePut(ty, zeroValue, t, key, value);
    assert forall s :: 0 <= s < |keys| ==> keys[s] == t.keys[s];
    if Found(ty, t, key).Some? {
      RememberOver(ty, keys, values, ops, key, value, Found(ty, t, key).value);
    } else {
      if !IsZero(ty, key) { FoundMeaning(ty, t, t.count, key); }
      RememberPut(ty, keys, values, ops, key, value);
    }
  }

  lemma TrackPut<K(!new), V>(
    ty: KeyType<K>, zeroValue: V, t: Table<K, V>, cap: nat, ops: seq<Op<K, V>>, key: K, value: V)
    requires Lawful(ty) && 0 < cap && Tracks(ty, zeroValue, t, cap, ops)
    ensures var r := Set(ty, zeroValue, t, key, value);
            r.Some? && Tracks(ty, zeroValue, r.value, cap, ops + [Put(key, value)])
  {
    assert (ops + [Put(key, value)])[..|ops|] == ops;
    FoundAsTold(ty, zeroValue, t, cap, ops, key);
    var s := OutlineOf(ty, zeroValue, cap, ops);
    RememberSet(ty, zeroValue, t, ops, key, value);
    if Found(ty, t, key).Some? {
      MatchFound(ty, zeroValue, t, s, key, value);
    } else {
      MatchNew(ty, zeroValue, t, s, key, value);
    }
  }

  lemma GrowDense<K, V>(ty: KeyType<K>, zeroValue: V, t: Table<K, V>, fitCap: nat)
    requires WellFormed(t) && t.count <= Cap(t)
    ensures var r := Grow(ty, zeroValue, t, fitCap);
            && r.Some? && r.value.keys[..r.value.count] == t.keys[..t.count]
            && r.value.values[..r.value.count] == t.values[..t.count]
  {
    if Cap(t) - t.count <= fitCap { GrowKeepsOrder(ty, zeroValue, t, fitCap); }
  }

  lemma TrackFit<K(!new), V>(ty: KeyType<K>, zeroValue: V, t: Table<K, V>, cap: nat, ops: seq<Op<K, V>>, fitCap: nat)
    requires Lawful(ty) && 0 < cap && Tracks(ty, zeroValue, t, cap, ops)
    ensures var r := Grow(ty, zeroValue, t, fitCap); r.Some? && Tracks(ty, zeroValue, r.value, cap, ops + [Fit(fitCap)])
  {
    assert (ops + [Fit(fitCap)])[..|ops|] == ops;
    MatchRoom(ty, zeroValue, t, OutlineOf(ty, zeroValue, cap, ops), fitCap);
    GrowDense(ty, zeroValue, t, fitCap);
    RememberFit(ty, t.keys[..t.count], t.values[..t.count], ops, fitCap);
  }

  /** Every run completes, and the table it leaves is the one the history tells of. */
  lemma {:induction false} RunTracks<K(!new), V>(ty: KeyType<K>, zeroValue: V, cap: nat, ops: seq<Op<K, V>>)
    requires Lawful(ty) && 0 < cap
    ensures var r := Run(ty, zeroValue, cap, ops); r.Some? && Tracks(ty, zeroValue, r.value, cap, ops)
  {
    if ops == [] {
      NewRests(ty, zeroValue, cap);
    } else {
      var before, op := ops[..|ops| - 1], ops[|ops| - 1];
      assert before + [op] == ops;
      RunTracks(ty, zeroValue, cap, before);
      var t := Run(ty, zeroValue, cap, before).value;
      match op
      case Put(key, value) => TrackPut(ty, zeroValue, t, cap, before, key, value);
      case Fit(fitCap) => TrackFit(ty, zeroValue, t, cap, before, fitCap);
    }
  }
}
