/**
 * The probe loop, the linear-probing invariant, and what lookup and filing a key do under it.
 */
module HashTableLemmas {
  import opened Wrappers
  import opened Arithmetic
  import opened HashTable

  // ---------------------------------------------------------------- occupied buckets

  function UsedCount(bs: seq<Bucket>): (n: nat)
    ensures n <= |bs|
  {
    if bs == [] then 0 else UsedCount(bs[1..]) + if bs[0].Free? then 0 else 1
  }

  lemma {:induction false} UsedCountUpdate(bs: seq<Bucket>, i: nat, b: Bucket)
    requires i < |bs|
    ensures UsedCount(bs[i := b]) == UsedCount(bs) - (if bs[i].Free? then 0 else 1) + if b.Free? then 0 else 1
  {
    if i == 0 {
      assert bs[i := b][1..] == bs[1..];
    } else {
      assert bs[i := b][1..] == bs[1..][i - 1 := b];
      UsedCountUpdate(bs[1..], i - 1, b);
    }
  }

  lemma {:induction false} UsedCountFull(bs: seq<Bucket>)
    ensures (forall i :: 0 <= i < |bs| ==> bs[i].Used?) <==> UsedCount(bs) == |bs|
  {
    if bs != [] {
      UsedCountFull(bs[1..]);
      assert forall i :: 0 < i < |bs| ==> bs[i] == bs[1..][i - 1];
      assert forall i :: 0 <= i < |bs| - 1 ==> bs[1..][i] == bs[i + 1];
    }
  }

  lemma {:induction false} UsedCountFresh(n: nat)
    ensures UsedCount(seq(n, _ => Free)) == 0
  {
    if n > 0 {
      assert seq(n, _ => Free)[1..] == seq(n - 1, _ => Free);
      UsedCountFresh(n - 1);
    }
  }

  // ---------------------------------------------------------------- the probe loop

  /** The bucket cyclically `d` places after `i`. */
  function Nth(i: nat, d: nat, cap: nat): (j: nat)
    requires i < cap && d <= cap
    ensures j < cap
  {
    if i + d < cap then i + d else i + d - cap
  }

  lemma SmallMod(x: nat, cap: nat)
    requires x < cap
    ensures x % cap == x
  {
  }

  lemma NextIsNth(i: nat, cap: nat)
    requires i < cap
    ensures (i + 1) % cap == Nth(i, 1, cap)
  {
    if i + 1 < cap { SmallMod(i + 1, cap); }
  }

  /** Probing for `key` from bucket `i` first stops `d` places further. */
  ghost predicate FirstStop<K, V>(ty: KeyType<K>, t: Table<K, V>, key: K, i: nat, d: nat)
    requires WellFormed(t) && i < Cap(t) && d <= Cap(t)
  {
    && Stops(ty, t, key, Nth(i, d, Cap(t)))
    && forall e: nat :: e < d ==> !Stops(ty, t, key, Nth(i, e, Cap(t)))
  }

  /**
   * No bucket within `n` places of `i` stops the probe, if bucket `i` does not nor any within `n - 1`
   * places of the next one.
   */
  lemma NoneEarlier<K, V>(ty: KeyType<K>, t: Table<K, V>, key: K, i: nat, n: nat)
    requires WellFormed(t) && i < Cap(t) && 0 < n <= Cap(t) && !Stops(ty, t, key, i)
    requires forall d: nat :: d < n - 1 ==> !Stops(ty, t, key, Nth(Nth(i, 1, Cap(t)), d, Cap(t)))
    ensures forall d: nat :: d < n ==> !Stops(ty, t, key, Nth(i, d, Cap(t)))
  {
    var cap := Cap(t);
    forall d: nat | d < n ensures !Stops(ty, t, key, Nth(i, d, cap)) {
      assert if d == 0 then Nth(i, d, cap) == i else Nth(Nth(i, 1, cap), d - 1, cap) == Nth(i, d, cap);
    }
  }

  /** The probe loop returns the first stopping bucket, and null only when there is none within reach. */
  lemma {:induction false} ProbeReturns<K, V>(ty: KeyType<K>, t: Table<K, V>, key: K, i: nat, n: nat)
    requires WellFormed(t) && i < Cap(t) && n <= Cap(t)
    ensures match Probe(ty, t, key, i, n)
            case Some(b) => exists d: nat :: d < n && b == Nth(i, d, Cap(t)) && FirstStop(ty, t, key, i, d)
            case None => forall d: nat :: d < n ==> !Stops(ty, t, key, Nth(i, d, Cap(t)))
    decreases n
  {
    if n > 0 {
      var cap := Cap(t);
      if Stops(ty, t, key, i) {
        assert Nth(i, 0, cap) == i && FirstStop(ty, t, key, i, 0);
      } else {
        NextIsNth(i, cap);
        var j := Nth(i, 1, cap);
        ProbeReturns(ty, t, key, j, n - 1);
        if Probe(ty, t, key, j, n - 1).Some? {
          var d: nat :| d < n - 1 && Probe(ty, t, key, j, n - 1).value == Nth(j, d, cap) && FirstStop(ty, t, key, j, d);
          assert Nth(j, d, cap) == Nth(i, d + 1, cap);
          NoneEarlier(ty, t, key, i, d + 1);
          assert FirstStop(ty, t, key, i, d + 1);
        } else {
          NoneEarlier(ty, t, key, i, n);
        }
      }
    }
  }

  /** Every bucket is within reach, so probing yields null only in a full table, wherever it starts. */
  lemma ProbeNone<K, V>(ty: KeyType<K>, t: Table<K, V>, key: K, start: nat)
    requires WellFormed(t) && start < Cap(t) && Probe(ty, t, key, start, Cap(t)).None?
    ensures forall b :: 0 <= b < Cap(t) ==> !Stops(ty, t, key, b)
    ensures UsedCount(t.buckets) == Cap(t)
  {
    var cap := Cap(t);
    ProbeReturns(ty, t, key, start, cap);
    forall b | 0 <= b < cap ensures !Stops(ty, t, key, b) && t.buckets[b].Used? {
      assert Nth(start, if b >= start then b - start else b + cap - start, cap) == b;
    }
    UsedCountFull(t.buckets);
  }

  /** Probing starts at the remainder of the hash, cut to 32 bits, by the capacity. */
  lemma ProbingStarts<K, V>(ty: KeyType<K>, t: Table<K, V>, key: K, high: nat, q: nat, i: nat)
    requires WellFormed(t) && i < Cap(t) && Cap(t) * q + i < 0x1_0000_0000
    requires ty.hash(key) == 0x1_0000_0000 * high + (Cap(t) * q + i)
    ensures Stops(ty, t, key, i) ==> GetBucket(ty, t, key) == Some(i)
  {
    ModUnique(ty.hash(key), 0x1_0000_0000, high, Cap(t) * q + i);
    ModUnique(Cap(t) * q + i, Cap(t), q, i);
  }

  lemma GetBucketNone<K, V>(ty: KeyType<K>, t: Table<K, V>, key: K)
    requires WellFormed(t) && GetBucket(ty, t, key).None?
    ensures forall b :: 0 <= b < Cap(t) ==> !Stops(ty, t, key, b)
    ensures UsedCount(t.buckets) == Cap(t)
  {
    ProbeNone(ty, t, key, Home(ty, key, Cap(t)));
  }

  /** The slot that looking up `key` leads to: none if the bucket is null or free. */
  function Found<K, V>(ty: KeyType<K>, t: Table<K, V>, key: K): (r: Option<nat>)
    requires WellFormed(t)
    ensures r.Some? ==> r.value < Cap(t) && ty.eq(t.keys[r.value], key)
  {
    var b := GetBucket(ty, t, key);
    if b.None? || t.buckets[b.value].Free? then None else Some(t.buckets[b.value].key)
  }

  /** The bucket is null exactly when the key is not found in a table whose buckets are all occupied. */
  lemma NullBucketMeaning<K, V>(ty: KeyType<K>, t: Table<K, V>, key: K)
    requires WellFormed(t)
    ensures GetBucket(ty, t, key).None? <==> Found(ty, t, key).None? && UsedCount(t.buckets) == Cap(t)
  {
    UsedCountFull(t.buckets);
    if GetBucket(ty, t, key).None? { GetBucketNone(ty, t, key); }
  }

  // ---------------------------------------------------------------- the invariant

  /** The key equals the all-zero key that unused slots hold. */
  predicate IsZero<K>(ty: KeyType<K>, key: K) { ty.eq(ty.zero, key) }

  /**
   * The first `m` slots of the table are filed: every key unequal to zero is stored once and looking
   * it up leads to its slot; buckets point at these slots or at zero keys; at most one bucket, the
   * one that looking up zero leads to, points at a zero key. Nothing is said of the zero key itself.
   */
  ghost predicate Orderly<K, V>(ty: KeyType<K>, t: Table<K, V>, m: nat) {
    && WellFormed(t) && m <= Cap(t)
    && (forall b :: 0 <= b < Cap(t) && t.buckets[b].Used? ==> t.buckets[b].key == t.buckets[b].value)
    && (forall b :: 0 <= b < Cap(t) && t.buckets[b].Used? ==>
        t.buckets[b].key < m || IsZero(ty, t.keys[t.buckets[b].key]))
    && OthersDistinct(ty, t.keys, m)
    && (forall s :: 0 <= s < m && !IsZero(ty, t.keys[s]) ==> Found(ty, t, t.keys[s]) == Some(s))
    && (forall b :: 0 <= b < Cap(t) && t.buckets[b].Used? && IsZero(ty, t.keys[t.buckets[b].key]) ==>
          GetBucket(ty, t, ty.zero) == Some(b))
  }

  ghost predicate OthersDistinct<K>(ty: KeyType<K>, keys: seq<K>, m: nat)
    requires m <= |keys|
  {
    forall i, j :: 0 <= i < j < m && !IsZero(ty, keys[i]) ==> !ty.eq(keys[i], keys[j])
  }

  /** Some stored key equals `key`. */
  ghost predicate Stored<K>(ty: KeyType<K>, keys: seq<K>, m: nat, key: K)
    requires m <= |keys|
  {
    exists s :: 0 <= s < m && ty.eq(keys[s], key)
  }

  // ---------------------------------------------------------------- what a lookup means

  /** The probe loop sees a key only through `eq`. */
  lemma {:induction false} ProbeEqual<K(!new), V>(ty: KeyType<K>, t: Table<K, V>, q: K, q': K, i: nat, n: nat)
    requires Lawful(ty) && WellFormed(t) && i < Cap(t) && ty.eq(q, q')
    ensures Probe(ty, t, q', i, n) == Probe(ty, t, q, i, n)
    decreases n
  {
    if n > 0 {
      assert Stops(ty, t, q, i) <==> Stops(ty, t, q', i);
      if !Stops(ty, t, q, i) {
        ProbeEqual(ty, t, q, q', (i + 1) % Cap(t), n - 1);
      }
    }
  }

  lemma BucketOfEqual<K(!new), V>(ty: KeyType<K>, t: Table<K, V>, q: K, q': K)
    requires Lawful(ty) && WellFormed(t) && ty.eq(q, q')
    ensures GetBucket(ty, t, q') == GetBucket(ty, t, q) && Found(ty, t, q') == Found(ty, t, q)
  {
    ProbeEqual(ty, t, q, q', Home(ty, q, Cap(t)), Cap(t));
  }

  /** Two stored slots with equal keys, unequal to zero, are the same slot. */
  lemma SameSlot<K(!new)>(ty: KeyType<K>, keys: seq<K>, m: nat, i: nat, j: nat, key: K)
    requires Lawful(ty) && m <= |keys| && OthersDistinct(ty, keys, m) && i < m && j < m
    requires ty.eq(keys[i], key) && ty.eq(keys[j], key) && !IsZero(ty, key)
    ensures i == j
  {
    assert ty.eq(keys[i], keys[j]) && ty.eq(keys[j], keys[i]);
    assert !IsZero(ty, keys[i]) && !IsZero(ty, keys[j]);
  }

  /** A key unequal to zero is found in the slot that stores an equal key, and nowhere if no slot does. */
  lemma FoundMeaning<K(!new), V>(ty: KeyType<K>, t: Table<K, V>, m: nat, key: K)
    requires Lawful(ty) && Orderly(ty, t, m) && !IsZero(ty, key)
    ensures forall s :: 0 <= s < m && ty.eq(t.keys[s], key) ==> Found(ty, t, key) == Some(s)
    ensures Found(ty, t, key).None? <==> !Stored(ty, t.keys, m, key)
  {
    forall s | 0 <= s < m && ty.eq(t.keys[s], key) ensures Found(ty, t, key) == Some(s) {
      assert !IsZero(ty, t.keys[s]);
      BucketOfEqual(ty, t, t.keys[s], key);
    }
    if Found(ty, t, key).Some? {
      assert ty.eq(t.keys[Found(ty, t, key).value], key);
    }
  }

  /** Lookup gives the value in the slot found. */
  lemma GetFound<K, V>(ty: KeyType<K>, t: Table<K, V>, m: nat, key: K)
    requires Orderly(ty, t, m)
    ensures Get(ty, t, key) == match Found(ty, t, key) case None => None case Some(s) => Some(t.values[s])
  {
  }

  /**
   * The linear-probing invariant spelled out: going cyclically from the home bucket of a stored key
   * unequal to zero, every bucket before the one that points at its slot is occupied by an unequal key.
   */
  lemma StoredPath<K(!new), V>(ty: KeyType<K>, t: Table<K, V>, m: nat, s: nat)
    requires Lawful(ty) && Orderly(ty, t, m) && s < m && (!IsZero(ty, t.keys[s]) || Found(ty, t, ty.zero) == Some(s))
    ensures var home := Home(ty, t.keys[s], Cap(t));
            exists d: nat :: d < Cap(t) && t.buckets[Nth(home, d, Cap(t))] == Used(s, s) &&
              forall e: nat :: e < d ==> var b := t.buckets[Nth(home, e, Cap(t))];
                                         b.Used? && !ty.eq(t.keys[b.key], t.keys[s])
  {
    if IsZero(ty, t.keys[s]) { BucketOfEqual(ty, t, ty.zero, t.keys[s]); }
    var home := Home(ty, t.keys[s], Cap(t));
    ProbeReturns(ty, t, t.keys[s], home, Cap(t));
    var d: nat :| d < Cap(t) && GetBucket(ty, t, t.keys[s]) == Some(Nth(home, d, Cap(t))) &&
        FirstStop(ty, t, t.keys[s], home, d);
    assert forall e: nat :: e < d ==> !Stops(ty, t, t.keys[s], Nth(home, e, Cap(t)));
  }

  // ---------------------------------------------------------------- lookup by identity

  /** The two probe loops agree if the buckets that stop one are those that stop the other. */
  lemma {:induction false} ProbeSlotSame<K, V>(ty: KeyType<K>, t: Table<K, V>, p: KeyPtr<K>, i: nat, n: nat)
    requires WellFormed(t) && i < Cap(t)
    requires forall b :: 0 <= b < Cap(t) ==> (StopsAtSlot(t, p.slot, b) <==> Stops(ty, t, p.key, b))
    ensures ProbeSlot(t, p.slot, i, n) == Probe(ty, t, p.key, i, n)
    decreases n
  {
    if n > 0 && !Stops(ty, t, p.key, i) {
      ProbeSlotSame(ty, t, p, (i + 1) % Cap(t), n - 1);
    }
  }

  /**
   * An interned key leads identity lookup and equality lookup to the same bucket, unless it is a zero
   * key that lost its bucket to another slot.
   */
  lemma InternExactlyWhen<K(!new), V>(ty: KeyType<K>, t: Table<K, V>, m: nat, p: KeyPtr<K>)
    requires Lawful(ty) && Orderly(ty, t, m) && PointsInto(t, p) && p.slot.Some? && p.slot.value < m
    ensures GetBucketByIntern(ty, t, p) == GetBucket(ty, t, p.key) <==>
            (IsZero(ty, p.key) ==> Found(ty, t, ty.zero).None? || Found(ty, t, ty.zero) == p.slot)
  {
    if IsZero(ty, p.key) {
      BucketOfEqual(ty, t, ty.zero, p.key);
      assert forall b :: 0 <= b < Cap(t) && t.buckets[b].Used? && ty.eq(t.keys[t.buckets[b].key], p.key) ==>
               IsZero(ty, t.keys[t.buckets[b].key]);
      if Found(ty, t, ty.zero).None? || Found(ty, t, ty.zero) == p.slot {
        ProbeSlotSame(ty, t, p, Home(ty, p.key, Cap(t)), Cap(t));
      }
    } else {
      forall b | 0 <= b < Cap(t) ensures StopsAtSlot(t, p.slot, b) <==> Stops(ty, t, p.key, b) {
        if t.buckets[b].Used? && ty.eq(t.keys[t.buckets[b].key], p.key) {
          SameSlot(ty, t.keys, m, t.buckets[b].key, p.slot.value, p.key);
        }
      }
      ProbeSlotSame(ty, t, p, Home(ty, p.key, Cap(t)), Cap(t));
    }
  }

  /** A pointer that does not go into the `keys` array is never found. */
  lemma ForeignIntern<K, V>(ty: KeyType<K>, t: Table<K, V>, p: KeyPtr<K>)
    requires WellFormed(t) && p.slot.None?
    ensures GetByIntern(ty, t, p).None?
  {
  }

  // ---------------------------------------------------------------- filing a key

  /** `t'` is `t` with bucket `b0` pointed at slot `m`, whose key may be rewritten. */
  ghost predicate Files<K, V>(t: Table<K, V>, t': Table<K, V>, b0: nat, m: nat) {
    && WellFormed(t) && WellFormed(t') && Cap(t) == Cap(t') && b0 < Cap(t) && m < Cap(t)
    && t'.buckets == t.buckets[b0 := Used(m, m)]
    && forall s :: 0 <= s < Cap(t) && s != m ==> t'.keys[s] == t.keys[s]
  }

  /** Filing a key in bucket `b0` does not disturb the probe path of another key that does not stop there. */
  lemma {:induction false} ProbeUndisturbed<K, V>(
    ty: KeyType<K>, t: Table<K, V>, t': Table<K, V>, b0: nat, m: nat, q: K, i: nat, n: nat)
    requires Files(t, t', b0, m) && i < Cap(t) && !ty.eq(t'.keys[m], q)
    requires t.buckets[b0].Free? || !ty.eq(t.keys[t.buckets[b0].key], q)
    requires var r := Probe(ty, t, q, i, n); r.Some? && t.buckets[r.value].Used? && t.buckets[r.value].key != m
    ensures Probe(ty, t', q, i, n) == Probe(ty, t, q, i, n)
    decreases n
  {
    if !Stops(ty, t, q, i) {
      ProbeUndisturbed(ty, t, t', b0, m, q, (i + 1) % Cap(t), n - 1);
    }
  }

  lemma FoundUndisturbed<K, V>(ty: KeyType<K>, t: Table<K, V>, t': Table<K, V>, b0: nat, m: nat, q: K)
    requires Files(t, t', b0, m) && !ty.eq(t'.keys[m], q)
    requires t.buckets[b0].Free? || !ty.eq(t.keys[t.buckets[b0].key], q)
    requires Found(ty, t, q).Some? && Found(ty, t, q).value != m
    ensures GetBucket(ty, t', q) == GetBucket(ty, t, q) && Found(ty, t', q) == Found(ty, t, q)
  {
    ProbeUndisturbed(ty, t, t', b0, m, q, Home(ty, q, Cap(t)), Cap(t));
  }

  /** The key written to slot `m` is found there, through its own bucket or an earlier one pointing at the same slot. */
  lemma {:induction false} ProbeFindsStored<K, V>(
    ty: KeyType<K>, t: Table<K, V>, t': Table<K, V>, b0: nat, m: nat, i: nat, n: nat)
    requires Files(t, t', b0, m) && i < Cap(t) && ty.eq(t'.keys[m], t'.keys[m])
    requires Probe(ty, t, t'.keys[m], i, n) == Some(b0)
    ensures var r := Probe(ty, t', t'.keys[m], i, n);
            r.Some? && t'.buckets[r.value].Used? && t'.buckets[r.value].key == m
    decreases n
  {
    if i != b0 && !Stops(ty, t', t'.keys[m], i) {
      ProbeFindsStored(ty, t, t', b0, m, (i + 1) % Cap(t), n - 1);
    }
  }

  /**
   * If `m` was no earlier bucket's slot, or held a key equal to `q` already, the bucket found for `q` stays
   * the one found.
   */
  lemma {:induction false} ProbeLands<K(!new), V>(
    ty: KeyType<K>, t: Table<K, V>, t': Table<K, V>, b0: nat, m: nat, q: K, i: nat, n: nat)
    requires Lawful(ty) && Files(t, t', b0, m) && i < Cap(t) && ty.eq(t'.keys[m], q)
    requires forall b :: 0 <= b < Cap(t) && t.buckets[b].Used? && t.buckets[b].key == m ==> ty.eq(t.keys[m], q)
    requires Probe(ty, t, q, i, n) == Some(b0)
    ensures Probe(ty, t', q, i, n) == Some(b0)
    decreases n
  {
    if i != b0 {
      ProbeLands(ty, t, t', b0, m, q, (i + 1) % Cap(t), n - 1);
    }
  }

  /** What filing slot `m` does to the zero key and to the number of occupied buckets. */
  ghost predicate FoundFiled<K, V>(ty: KeyType<K>, t: Table<K, V>, t': Table<K, V>, m: nat)
    requires WellFormed(t) && WellFormed(t') && m < Cap(t')
  {
    && Found(ty, t', ty.zero) == (if IsZero(ty, t'.keys[m]) then Some(m)
                                  else if Found(ty, t, ty.zero) == Some(m) then None
                                  else Found(ty, t, ty.zero))
    && UsedCount(t'.buckets) ==
         UsedCount(t.buckets) + if IsZero(ty, t'.keys[m]) && Found(ty, t, ty.zero).Some? then 0 else 1
  }

  ghost predicate FiledAt<K, V>(ty: KeyType<K>, t: Table<K, V>, t': Table<K, V>, m: nat)
    requires WellFormed(t) && WellFormed(t') && m < Cap(t')
  {
    Orderly(ty, t', m + 1) && FoundFiled(ty, t, t', m)
  }

  /** Filing a new key unequal to zero in the free bucket found for it leaves every such key filed. */
  lemma FileOtherFound<K(!new), V>(ty: KeyType<K>, t: Table<K, V>, t': Table<K, V>, b0: nat, m: nat)
    requires Lawful(ty) && Orderly(ty, t, m) && Files(t, t', b0, m) && t.buckets[b0].Free?
    requires !IsZero(ty, t'.keys[m]) && !Stored(ty, t.keys, m, t'.keys[m])
    requires GetBucket(ty, t, t'.keys[m]) == Some(b0)
    ensures forall s :: 0 <= s <= m && !IsZero(ty, t'.keys[s]) ==> Found(ty, t', t'.keys[s]) == Some(s)
  {
    var key := t'.keys[m];
    forall s | 0 <= s <= m && !IsZero(ty, t'.keys[s]) ensures Found(ty, t', t'.keys[s]) == Some(s) {
      if s < m {
        assert ty.eq(t.keys[s], t.keys[s]) && !ty.eq(t.keys[s], key);
        FoundUndisturbed(ty, t, t', b0, m, t.keys[s]);
      } else {
        ProbeFindsStored(ty, t, t', b0, m, Home(ty, key, Cap(t)), Cap(t));
      }
    }
  }

  /** It leaves the zero key where it is, unless its bucket points at the slot that is written. */
  lemma FileOtherZero<K(!new), V>(ty: KeyType<K>, t: Table<K, V>, t': Table<K, V>, b0: nat, m: nat)
    requires Lawful(ty) && Orderly(ty, t, m) && Files(t, t', b0, m) && t.buckets[b0].Free? && !IsZero(ty, t'.keys[m])
    ensures var z := Found(ty, t, ty.zero); Found(ty, t', ty.zero) == if z == Some(m) then None else z
    ensures forall b :: 0 <= b < Cap(t) && t'.buckets[b].Used? && IsZero(ty, t'.keys[t'.buckets[b].key]) ==>
              GetBucket(ty, t', ty.zero) == Some(b)
  {
    var z := Found(ty, t, ty.zero);
    if z.Some? && z.value != m { FoundUndisturbed(ty, t, t', b0, m, ty.zero); }
    forall b | 0 <= b < Cap(t) && t'.buckets[b].Used? && IsZero(ty, t'.keys[t'.buckets[b].key])
      ensures GetBucket(ty, t', ty.zero) == Some(b) && z.Some? && z.value != m
    {
      assert t'.buckets[b] == t.buckets[b] && t.buckets[b].key != m;
    }
    var z' := Found(ty, t', ty.zero);
    assert z'.Some? ==> IsZero(ty, t'.keys[z'.value]);
  }

  /** Filing a new key unequal to zero in the bucket found for it, even if the zero key's bucket points at its slot. */
  lemma FileOther<K(!new), V>(ty: KeyType<K>, t: Table<K, V>, t': Table<K, V>, b0: nat, m: nat)
    requires Lawful(ty) && Orderly(ty, t, m) && Files(t, t', b0, m)
    requires !IsZero(ty, t'.keys[m]) && !Stored(ty, t.keys, m, t'.keys[m])
    requires GetBucket(ty, t, t'.keys[m]) == Some(b0)
    ensures FiledAt(ty, t, t', m)
  {
    FoundMeaning(ty, t, m, t'.keys[m]);
    UsedCountUpdate(t.buckets, b0, Used(m, m));
    FileOtherFound(ty, t, t', b0, m);
    FileOtherZero(ty, t, t', b0, m);
  }

  /** Filing a key equal to zero in the bucket found for it leaves the other keys filed. */
  lemma FileZeroFound<K(!new), V>(ty: KeyType<K>, t: Table<K, V>, t': Table<K, V>, b0: nat, m: nat)
    requires Lawful(ty) && Orderly(ty, t, m) && Files(t, t', b0, m)
    requires IsZero(ty, t'.keys[m]) && (t.buckets[b0].Used? ==> IsZero(ty, t.keys[t.buckets[b0].key]))
    ensures forall s :: 0 <= s <= m && !IsZero(ty, t'.keys[s]) ==> Found(ty, t', t'.keys[s]) == Some(s)
  {
    forall s | 0 <= s <= m && !IsZero(ty, t'.keys[s]) ensures Found(ty, t', t'.keys[s]) == Some(s) {
      assert s < m && !ty.eq(t'.keys[m], t.keys[s]);
      assert t.buckets[b0].Used? ==> !ty.eq(t.keys[t.buckets[b0].key], t.keys[s]);
      FoundUndisturbed(ty, t, t', b0, m, t.keys[s]);
    }
  }

  /** The zero key stays in the bucket found for it, and in no other. */
  lemma FileZeroAlone<K(!new), V>(ty: KeyType<K>, t: Table<K, V>, t': Table<K, V>, b0: nat, m: nat)
    requires Lawful(ty) && Orderly(ty, t, m) && Files(t, t', b0, m)
    requires IsZero(ty, t'.keys[m]) && GetBucket(ty, t, ty.zero) == Some(b0)
    ensures GetBucket(ty, t', ty.zero) == Some(b0)
    ensures forall b :: 0 <= b < Cap(t) && t'.buckets[b].Used? && IsZero(ty, t'.keys[t'.buckets[b].key]) ==> b == b0
  {
    ProbeLands(ty, t, t', b0, m, ty.zero, Home(ty, ty.zero, Cap(t)), Cap(t));
    assert forall b :: 0 <= b < Cap(t) && t'.buckets[b].Used? && IsZero(ty, t'.keys[t'.buckets[b].key]) && b != b0 ==>
             IsZero(ty, t.keys[t.buckets[b].key]);
  }

  /** Filing a key equal to zero in the bucket found for it. */
  lemma FileZero<K(!new), V>(ty: KeyType<K>, t: Table<K, V>, t': Table<K, V>, b0: nat, m: nat)
    requires Lawful(ty) && Orderly(ty, t, m) && Files(t, t', b0, m)
    requires IsZero(ty, t'.keys[m]) && GetBucket(ty, t, t'.keys[m]) == Some(b0)
    ensures FiledAt(ty, t, t', m)
  {
    BucketOfEqual(ty, t, ty.zero, t'.keys[m]);
    assert t.buckets[b0].Used? ==> IsZero(ty, t.keys[t.buckets[b0].key]);
    UsedCountUpdate(t.buckets, b0, Used(m, m));
    FileZeroFound(ty, t, t', b0, m);
    FileZeroAlone(ty, t, t', b0, m);
  }

  /** Filing a key in the bucket found for it keeps the invariant. */
  lemma File<K(!new), V>(ty: KeyType<K>, t: Table<K, V>, t': Table<K, V>, b0: nat, m: nat)
    requires Lawful(ty) && Orderly(ty, t, m) && Files(t, t', b0, m)
    requires IsZero(ty, t'.keys[m]) || !Stored(ty, t.keys, m, t'.keys[m])
    requires GetBucket(ty, t, t'.keys[m]) == Some(b0)
    ensures FiledAt(ty, t, t', m)
  {
    if IsZero(ty, t'.keys[m]) { FileZero(ty, t, t', b0, m); } else { FileOther(ty, t, t', b0, m); }
  }
}
