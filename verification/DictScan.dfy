/** dictScan: what one call promises, and what a whole scan promises when the dictionary is
    changed in any way between the calls. */
module DictScan {
  import opened Bits
  import opened DictState
  import opened Options

  /** The table whose bucket a call goes through as a whole: the smaller one during a rehash. */
  function Smaller<K, V>(s: State<K, V>): Table<K, V>
  {
    if s.Rehashing() && s.ht0.Size() > s.ht1.Size() then s.ht1 else s.ht0
  }

  /** The key's hash selects the cursor's bucket. */
  predicate SameBucket<K, V>(t: Table<K, V>, hash: K -> bv64, v: bv64, k: K) { And(hash(k), t.mask) == And(v, t.mask) }

  /** One call with cursor `v` in state `s`, returning `v'` and emitting `out`: it emits the
      entry of every stored key placed from the cursor up to the next one (up to the end when
      that is zero), nothing but stored entries of the cursor's bucket in the smaller table, and
      none of them twice; the cursor moves on to that table's next one, forward or around. */
  ghost predicate ScanStep<K(!new), V>(s: State<K, V>, hash: K -> bv64, v: bv64, v': bv64, out: seq<Entry<K, V>>)
    requires Inv(s, hash)
  {
    && (forall k :: Covers(s, hash, v, v', k) ==> Lookup(s, hash, k).Some? && Entry(k, Lookup(s, hash, k).value) in out)
    && (forall i :: 0 <= i < |out| ==> Lookup(s, hash, out[i].key) == Some(out[i].val))
    && Distinct(out) && (forall i :: 0 <= i < |out| ==> SameBucket(Smaller(s), hash, v, out[i].key))
    && (v' == 0 || Place(v) < Place(v'))
    && v' == if s.Used() == 0 then 0 else Advance(v, Smaller(s).mask)
  }

  ghost predicate Covers<K(!new), V>(s: State<K, V>, hash: K -> bv64, v: bv64, v': bv64, k: K)
    requires Inv(s, hash)
  {
    Lookup(s, hash, k).Some? && Place(v) <= Place(hash(k)) && (v' == 0 || Place(hash(k)) < Place(v'))
  }

  /** Every key of table `t` from place `v` up to `v'` is among the emitted entries. */
  ghost predicate Emitted<K(!new), V>(t: Table<K, V>, hash: K -> bv64, v: bv64, v': bv64, out: seq<Entry<K, V>>)
    requires Shaped(t)
  {
    forall k :: InTable(t, hash, k).Some? && Place(v) <= Place(hash(k)) && (v' == 0 || Place(hash(k)) < Place(v'))
      ==> Entry(k, InTable(t, hash, k).value) in out
  }

  /** All entries emitted are stored in the table. */
  ghost predicate Stored<K, V>(t: Table<K, V>, hash: K -> bv64, out: seq<Entry<K, V>>)
    requires Shaped(t)
  {
    forall i :: 0 <= i < |out| ==> InTable(t, hash, out[i].key) == Some(out[i].val)
  }

  lemma SameSlot<K, V>(t: Table<K, V>, g: bv64, h: bv64)
    requires Shaped(t) && t.buckets != [] && And(g, t.mask) == And(h, t.mask)
    ensures Slot(g, t) == Slot(h, t)
  {
    hide LowMask, Val;
  }

  /** A bucket holds every key of its table whose hash selects it. */
  lemma BucketHolds<K, V>(t: Table<K, V>, hash: K -> bv64, v: bv64, k: K)
    requires Shaped(t) && t.buckets != [] && TableInv(t, hash) && InTable(t, hash, k).Some?
    requires Slot(hash(k), t) == Slot(v, t)
    ensures Entry(k, InTable(t, hash, k).value) in t.buckets[Slot(v, t)]
  {
    hide LowMask, Val, Placed, Count, Slot;
    var i := InChainFinds(t.buckets[Slot(v, t)], k);
  }

  lemma BucketStored<K, V>(t: Table<K, V>, hash: K -> bv64, i: nat)
    requires TableInv(t, hash) && i < |t.buckets|
    ensures Stored(t, hash, t.buckets[i])
  {
    hide LowMask, Val, Slot, InChain, Count;
    forall j | 0 <= j < |t.buckets[i]| ensures InTable(t, hash, t.buckets[i][j].key) == Some(t.buckets[i][j].val) {
      EntryIsFound(t, hash, i, j);
    }
  }

  /** Emitting the cursor's bucket of a table emits every key of the table up to the next
      cursor for that table's mask. */
  lemma BucketEmits<K(!new), V>(t: Table<K, V>, hash: K -> bv64, v: bv64)
    requires TableInv(t, hash) && t.buckets != []
    ensures Emitted(t, hash, v, Advance(v, t.mask), t.buckets[Slot(v, t)])
    ensures Stored(t, hash, t.buckets[Slot(v, t)])
    ensures Advance(v, t.mask) == 0 || Place(v) < Place(Advance(v, t.mask))
  {
    hide LowMask, Val, Slot, InChain, Count, Placed, InTable, Advance, Place;
    AdvanceGrows(v, t.mask);
    BucketStored(t, hash, Slot(v, t));
    forall k | InTable(t, hash, k).Some? && Place(v) <= Place(hash(k))
               && (Advance(v, t.mask) == 0 || Place(hash(k)) < Place(Advance(v, t.mask)))
      ensures Entry(k, InTable(t, hash, k).value) in t.buckets[Slot(v, t)]
    {
      AdvanceCovers(v, t.mask, hash(k));
      SameSlot(t, hash(k), v);
      BucketHolds(t, hash, v, k);
    }
  }

  /** Nothing that a table smaller than the cursor's step holds is missed: while the cursor
      stays in one bucket of it, that bucket holds all that the step passes. */
  lemma SmallBucketHolds<K(!new), V>(t: Table<K, V>, hash: K -> bv64, v0: bv64, v: bv64, m1: bv64,
                                     out: seq<Entry<K, V>>)
    requires TableInv(t, hash) && t.buckets != [] && LowMask(m1) && Subset(t.mask, m1)
    requires And(v, t.mask) == And(v0, t.mask)
    requires forall e :: e in t.buckets[Slot(v0, t)] ==> e in out
    ensures Emitted(t, hash, v, Advance(v, m1), out)
  {
    hide LowMask, Val, Slot, InChain, Count, Placed, InTable, Advance, Place, Subset, And;
    forall k | InTable(t, hash, k).Some? && Place(v) <= Place(hash(k))
               && (Advance(v, m1) == 0 || Place(hash(k)) < Place(Advance(v, m1)))
      ensures Entry(k, InTable(t, hash, k).value) in out
    {
      AdvanceCovers(v, m1, hash(k));
      NarrowMask(t.mask, m1, hash(k), v);
      SameSlot(t, hash(k), v0);
      BucketHolds(t, hash, v0, k);
    }
  }

  lemma EmittedGrows<K(!new), V>(t: Table<K, V>, hash: K -> bv64, v: bv64, w: bv64,
                                 out: seq<Entry<K, V>>, more: seq<Entry<K, V>>)
    requires Shaped(t) && Emitted(t, hash, v, w, more)
    ensures Emitted(t, hash, v, w, out + more)
  {
    hide Shaped, InTable, Place;
  }

  lemma EmittedJoin<K(!new), V>(t: Table<K, V>, hash: K -> bv64, u: bv64, v: bv64, w: bv64,
                                out: seq<Entry<K, V>>, more: seq<Entry<K, V>>)
    requires Shaped(t) && Emitted(t, hash, v, w, out + more)
    requires u == v || (v != 0 && Emitted(t, hash, u, v, out))
    ensures Emitted(t, hash, u, w, out + more)
  {
    hide Shaped, InTable, Place;
  }

  /** The cursor in the order of the scan can never pass the last place. */
  const LAST: nat := Val(0xFFFF_FFFF_FFFF_FFFF)

  lemma LastIs()
    ensures LAST == 0xFFFF_FFFF_FFFF_FFFF
  {
    LargestVal();
  }

  lemma PlaceBound(v: bv64)
    ensures Place(v) <= LAST
  {
    hide Val, Rev;
    AllOnes(Rev(v), 0xFFFF_FFFF_FFFF_FFFF);
  }

  lemma TablesNest<K, V>(t0: Table<K, V>, t1: Table<K, V>)
    requires Shaped(t0) && Shaped(t1) && 0 < t0.Size() <= t1.Size()
    ensures Subset(t0.mask, t1.mask)
  {
    hide LowMask, LowVal, Fits, Subset;
    Fits64(t0.mask);
    MasksNest(t0.mask, t1.mask, 64);
  }

  lemma SlotAnd<K, V>(t: Table<K, V>, g: bv64, h: bv64)
    requires Shaped(t) && t.buckets != [] && Slot(g, t) == Slot(h, t)
    ensures And(g, t.mask) == And(h, t.mask)
  {
    SlotIs(t, g);
    SlotIs(t, h);
    hide *;
    ValIs(And(g, t.mask));
    ValIs(And(h, t.mask));
    Fits64(And(g, t.mask));
    Fits64(And(h, t.mask));
    SameVal(And(g, t.mask), And(h, t.mask), 64);
  }

  lemma SlotIs<K, V>(t: Table<K, V>, h: bv64)
    requires Shaped(t) && t.buckets != []
    ensures Slot(h, t) == Val(And(h, t.mask))
  {
    hide LowMask, Val;
  }

  /** What a bucket holds has the bucket's hashes, no key twice, and is in the table. */
  lemma BucketIs<K, V>(t: Table<K, V>, hash: K -> bv64, v: bv64)
    requires TableInv(t, hash) && t.buckets != []
    ensures var b := t.buckets[Slot(v, t)];
            && Distinct(b) && (forall i :: 0 <= i < |b| ==> SameBucket(t, hash, v, b[i].key))
            && forall i :: 0 <= i < |b| ==> InTable(t, hash, b[i].key).Some?
  {
    hide LowMask, Val, Slot, Count, And, InTable;
    var b := t.buckets[Slot(v, t)];
    BucketStored(t, hash, Slot(v, t));
    forall i | 0 <= i < |b| ensures SameBucket(t, hash, v, b[i].key) {
      SlotAnd(t, hash(b[i].key), v);
    }
  }

  /** What has been emitted while the cursor ran from `v0` to `v` through the bigger table: no
      key twice, only keys of the smaller table's bucket, and of the bigger table only keys of
      buckets before the cursor. */
  ghost predicate OnceSoFar<K(!new), V>(t0: Table<K, V>, t1: Table<K, V>, hash: K -> bv64, v0: bv64, v: bv64,
                                        out: seq<Entry<K, V>>)
    requires Shaped(t0) && Shaped(t1)
  {
    && Distinct(out) && (forall i :: 0 <= i < |out| ==> SameBucket(t0, hash, v0, out[i].key))
    && forall i :: 0 <= i < |out| ==>
         || InTable(t0, hash, out[i].key).Some?
         || (v != v0 && InTable(t1, hash, out[i].key).Some? && Place(And(hash(out[i].key), t1.mask)) < Place(v))
  }

  lemma OnceAtFirst<K(!new), V>(t0: Table<K, V>, t1: Table<K, V>, hash: K -> bv64, v: bv64)
    requires TableInv(t0, hash) && Shaped(t1) && t0.buckets != []
    ensures OnceSoFar(t0, t1, hash, v, v, t0.buckets[Slot(v, t0)])
  {
    BucketIs(t0, hash, v);
    hide *;
    OnceIs(t0, t1, hash, v, v, t0.buckets[Slot(v, t0)]);
  }

  lemma OnceIs<K(!new), V>(t0: Table<K, V>, t1: Table<K, V>, hash: K -> bv64, v0: bv64, v: bv64,
                           out: seq<Entry<K, V>>)
    requires Shaped(t0) && Shaped(t1)
    requires Distinct(out) && forall i :: 0 <= i < |out| ==> SameBucket(t0, hash, v0, out[i].key)
    requires forall i :: 0 <= i < |out| ==>
               || InTable(t0, hash, out[i].key).Some?
               || (v != v0 && InTable(t1, hash, out[i].key).Some? && Place(And(hash(out[i].key), t1.mask)) < Place(v))
    ensures OnceSoFar(t0, t1, hash, v0, v, out)
  {
    hide Distinct, SameBucket, InTable, Place, And, Shaped;
  }

  /** No key is in both tables. */
  ghost predicate Apart<K(!new), V>(t0: Table<K, V>, t1: Table<K, V>, hash: K -> bv64)
    requires Shaped(t0) && Shaped(t1)
  {
    forall k :: InTable(t0, hash, k).None? || InTable(t1, hash, k).None?
  }

  lemma TablesApart<K(!new), V>(s: State<K, V>, hash: K -> bv64)
    requires Inv(s, hash)
    ensures Apart(s.ht0, s.ht1, hash) && Apart(s.ht1, s.ht0, hash)
  {
    hide InTable, TableInv, Shaped;
  }

  /** One more bucket of the bigger table. */
  lemma OnceMore<K(!new), V>(t0: Table<K, V>, t1: Table<K, V>, hash: K -> bv64, v0: bv64, v: bv64,
                             out: seq<Entry<K, V>>)
    requires TableInv(t0, hash) && TableInv(t1, hash) && t1.buckets != [] && Apart(t0, t1, hash)
    requires Subset(t0.mask, t1.mask) && And(v, t0.mask) == And(v0, t0.mask)
    requires OnceSoFar(t0, t1, hash, v0, v, out) && (v == v0 || And(v, Not(t1.mask)) == 0) && Place(v0) <= Place(v)
    ensures var out', v' := out + t1.buckets[Slot(v, t1)], Advance(v, t1.mask);
            && Distinct(out') && (forall i :: 0 <= i < |out'| ==> SameBucket(t0, hash, v0, out'[i].key))
            && (v' != 0 ==> OnceSoFar(t0, t1, hash, v0, v', out'))
  {
    hide *;
    TableShaped(t0, hash);
    TableShaped(t1, hash);
    BucketIs(t1, hash, v);
    BucketJoins(t0, t1, hash, v0, v, out, t1.buckets[Slot(v, t1)]);
    if Advance(v, t1.mask) != 0 { BucketGoesOn(t0, t1, hash, v0, v, out, t1.buckets[Slot(v, t1)]); }
  }

  lemma BucketJoins<K(!new), V>(t0: Table<K, V>, t1: Table<K, V>, hash: K -> bv64, v0: bv64, v: bv64,
                                out: seq<Entry<K, V>>, b: seq<Entry<K, V>>)
    requires Shaped(t0) && Shaped(t1) && Apart(t0, t1, hash) && Subset(t0.mask, t1.mask)
    requires And(v, t0.mask) == And(v0, t0.mask)
    requires OnceSoFar(t0, t1, hash, v0, v, out) && (v == v0 || And(v, Not(t1.mask)) == 0)
    requires Distinct(b) && forall i :: 0 <= i < |b| ==> SameBucket(t1, hash, v, b[i].key)
    requires forall i :: 0 <= i < |b| ==> InTable(t1, hash, b[i].key).Some?
    ensures Distinct(out + b) && forall i :: 0 <= i < |out + b| ==> SameBucket(t0, hash, v0, (out + b)[i].key)
  {
    hide *;
    OnceParts(t0, t1, hash, v0, v, out);
    forall j | 0 <= j < |b| ensures SameBucket(t0, hash, v0, b[j].key) {
      BucketNarrows(t0, t1, hash, v0, v, b[j].key);
    }
    forall i, j | 0 <= i < |out| && 0 <= j < |b| ensures out[i].key != b[j].key {
      ApartAt(t0, t1, hash, b[j].key);
      BucketPlace(t1, hash, v, b[j].key);
      if v != v0 { Aligned(v, t1.mask); }
    }
    DistinctJoin(out, b);
  }

  lemma BucketGoesOn<K(!new), V>(t0: Table<K, V>, t1: Table<K, V>, hash: K -> bv64, v0: bv64, v: bv64,
                                 out: seq<Entry<K, V>>, b: seq<Entry<K, V>>)
    requires Shaped(t0) && Shaped(t1) && OnceSoFar(t0, t1, hash, v0, v, out) && Place(v0) <= Place(v)
    requires Distinct(out + b) && forall i :: 0 <= i < |out + b| ==> SameBucket(t0, hash, v0, (out + b)[i].key)
    requires forall i :: 0 <= i < |b| ==> SameBucket(t1, hash, v, b[i].key)
    requires forall i :: 0 <= i < |b| ==> InTable(t1, hash, b[i].key).Some?
    requires Advance(v, t1.mask) != 0
    ensures OnceSoFar(t0, t1, hash, v0, Advance(v, t1.mask), out + b)
  {
    hide *;
    var out', v' := out + b, Advance(v, t1.mask);
    OnceParts(t0, t1, hash, v0, v, out);
    AdvanceGrows(v, t1.mask);
    MaskedPlace(v, t1.mask);
    forall i | 0 <= i < |out'|
      ensures || InTable(t0, hash, out'[i].key).Some?
              || (v' != v0 && InTable(t1, hash, out'[i].key).Some?
                  && Place(And(hash(out'[i].key), t1.mask)) < Place(v'))
    {
      if i >= |out| {
        assert out'[i] == b[i - |out|];
        BucketPlace(t1, hash, v, out'[i].key);
      }
    }
    OnceIs(t0, t1, hash, v0, v', out');
  }

  lemma TableShaped<K, V>(t: Table<K, V>, hash: K -> bv64)
    requires TableInv(t, hash)
    ensures Shaped(t) && (t.Size() > 0 ==> t.buckets != [])
  {}

  lemma OnceParts<K(!new), V>(t0: Table<K, V>, t1: Table<K, V>, hash: K -> bv64, v0: bv64, v: bv64,
                              out: seq<Entry<K, V>>)
    requires Shaped(t0) && Shaped(t1) && OnceSoFar(t0, t1, hash, v0, v, out)
    ensures Distinct(out) && forall i :: 0 <= i < |out| ==> SameBucket(t0, hash, v0, out[i].key)
    ensures forall i :: 0 <= i < |out| ==>
              || InTable(t0, hash, out[i].key).Some?
              || (v != v0 && InTable(t1, hash, out[i].key).Some? && Place(And(hash(out[i].key), t1.mask)) < Place(v))
  {
    hide Distinct, SameBucket, InTable, Place, And, Shaped;
  }

  lemma ApartAt<K(!new), V>(t0: Table<K, V>, t1: Table<K, V>, hash: K -> bv64, k: K)
    requires Shaped(t0) && Shaped(t1) && Apart(t0, t1, hash)
    ensures InTable(t0, hash, k).None? || InTable(t1, hash, k).None?
  {
    hide Shaped, InTable;
  }

  lemma BucketNarrows<K, V>(t0: Table<K, V>, t1: Table<K, V>, hash: K -> bv64, v0: bv64, v: bv64, k: K)
    requires Subset(t0.mask, t1.mask) && And(v, t0.mask) == And(v0, t0.mask) && SameBucket(t1, hash, v, k)
    ensures SameBucket(t0, hash, v0, k)
  {
    NarrowMask(t0.mask, t1.mask, hash(k), v);
    hide And, Subset;
  }

  lemma BucketPlace<K, V>(t: Table<K, V>, hash: K -> bv64, v: bv64, k: K)
    requires SameBucket(t, hash, v, k)
    ensures Place(And(hash(k), t.mask)) == Place(And(v, t.mask))
  {
    hide And, Place;
  }

  lemma DistinctJoin<K, V>(c: seq<Entry<K, V>>, d: seq<Entry<K, V>>)
    requires Distinct(c) && Distinct(d)
    requires forall i, j :: 0 <= i < |c| && 0 <= j < |d| ==> c[i].key != d[j].key
    ensures Distinct(c + d)
  {}

  lemma ScanDone<K(!new), V>(s: State<K, V>, hash: K -> bv64, v: bv64, v': bv64, out: seq<Entry<K, V>>)
    requires Inv(s, hash) && (v' == 0 || Place(v) < Place(v'))
    requires s.Used() > 0 && v' == Advance(v, Smaller(s).mask)
    requires Distinct(out) && forall i :: 0 <= i < |out| ==> SameBucket(Smaller(s), hash, v, out[i].key)
    requires Emitted(s.ht0, hash, v, v', out) && Emitted(s.ht1, hash, v, v', out)
    requires StoredInOne(s.ht0, s.ht1, hash, out) || StoredInOne(s.ht1, s.ht0, hash, out)
    ensures ScanStep(s, hash, v, v', out)
  {
    hide Shaped, Placed, Count, InTable, Place, Advance, Smaller, SameBucket, Distinct;
  }

  /** The four statements that move the cursor. */
  method Step(v: bv64, m: bv64) returns (v': bv64)
    ensures v' == Advance(v, m)
  {
    hide *;
    v' := v | !m;
    OrNot(v, m);
    v' := Reverse(v');
    v' := v' + 1;
    IncIs(Rev(Or(v, Not(m))));
    v' := Reverse(v');
    AdvanceIs(v, m);
  }

  lemma OrNot(v: bv64, m: bv64) ensures v | !m == Or(v, Not(m)) {}
  lemma IncIs(v: bv64) ensures v + 1 == Inc(v) {}

  lemma AndXor(v: bv64, a: bv64, b: bv64) ensures And(v, Xor(a, b)) == v & (a ^ b) {}

  /** All entries are stored in one of the two tables. */
  ghost predicate StoredInOne<K, V>(t0: Table<K, V>, t1: Table<K, V>, hash: K -> bv64, out: seq<Entry<K, V>>)
    requires Shaped(t0) && Shaped(t1)
  {
    forall i :: 0 <= i < |out| ==> (InTable(t0, hash, out[i].key) == Some(out[i].val)
                                  || InTable(t1, hash, out[i].key) == Some(out[i].val))
  }

  lemma BucketIsStored<K(!new), V>(t: Table<K, V>, u: Table<K, V>, hash: K -> bv64, v: bv64)
    requires TableInv(t, hash) && t.buckets != [] && Shaped(u)
    ensures StoredInOne(t, u, hash, t.buckets[Slot(v, t)]) && StoredInOne(u, t, hash, t.buckets[Slot(v, t)])
  {
    BucketStored(t, hash, Slot(v, t));
    hide InTable, Slot, Shaped, Placed, Count;
  }

  lemma StoredJoin<K, V>(t0: Table<K, V>, t1: Table<K, V>, hash: K -> bv64, out: seq<Entry<K, V>>,
                         more: seq<Entry<K, V>>)
    requires Shaped(t0) && Shaped(t1) && StoredInOne(t0, t1, hash, out) && StoredInOne(t0, t1, hash, more)
    ensures StoredInOne(t0, t1, hash, out + more)
  {
    hide InTable, Shaped;
  }

  /** While the cursor runs through the bigger table inside bucket `v0` of the smaller one. */
  ghost predicate Running<K(!new), V>(t0: Table<K, V>, t1: Table<K, V>, hash: K -> bv64, v0: bv64, v: bv64,
                                      out: seq<Entry<K, V>>)
    requires Shaped(t0) && Shaped(t1) && t0.buckets != []
  {
    && And(v, t0.mask) == And(v0, t0.mask) && Place(v0) <= Place(v)
    && OnceSoFar(t0, t1, hash, v0, v, out) && (v == v0 || And(v, Not(t1.mask)) == 0)
    && (v == v0 || (v != 0 && Emitted(t0, hash, v0, v, out) && Emitted(t1, hash, v0, v, out)))
    && (forall e :: e in t0.buckets[Slot(v0, t0)] ==> e in out)
    && StoredInOne(t0, t1, hash, out)
  }

  lemma RunningParts<K(!new), V>(t0: Table<K, V>, t1: Table<K, V>, hash: K -> bv64, v0: bv64, v: bv64,
                                 out: seq<Entry<K, V>>)
    requires Shaped(t0) && Shaped(t1) && t0.buckets != [] && Running(t0, t1, hash, v0, v, out)
    ensures And(v, t0.mask) == And(v0, t0.mask) && Place(v0) <= Place(v)
    ensures OnceSoFar(t0, t1, hash, v0, v, out) && (v == v0 || And(v, Not(t1.mask)) == 0)
    ensures v == v0 || (v != 0 && Emitted(t0, hash, v0, v, out) && Emitted(t1, hash, v0, v, out))
    ensures forall e :: e in t0.buckets[Slot(v0, t0)] ==> e in out
    ensures StoredInOne(t0, t1, hash, out)
  {
    hide And, Place, Not, OnceSoFar, Emitted, StoredInOne, Slot, Shaped;
  }

  lemma RunningIs<K(!new), V>(t0: Table<K, V>, t1: Table<K, V>, hash: K -> bv64, v0: bv64, v: bv64,
                              out: seq<Entry<K, V>>)
    requires Shaped(t0) && Shaped(t1) && t0.buckets != []
    requires And(v, t0.mask) == And(v0, t0.mask) && Place(v0) <= Place(v)
    requires OnceSoFar(t0, t1, hash, v0, v, out) && (v == v0 || And(v, Not(t1.mask)) == 0)
    requires v == v0 || (v != 0 && Emitted(t0, hash, v0, v, out) && Emitted(t1, hash, v0, v, out))
    requires forall e :: e in t0.buckets[Slot(v0, t0)] ==> e in out
    requires StoredInOne(t0, t1, hash, out)
    ensures Running(t0, t1, hash, v0, v, out)
  {
    hide And, Place, Not, OnceSoFar, Emitted, StoredInOne, Slot, Shaped;
  }

  lemma RunningStarts<K(!new), V>(t0: Table<K, V>, t1: Table<K, V>, hash: K -> bv64, v: bv64)
    requires TableInv(t0, hash) && Shaped(t1) && t0.buckets != []
    ensures Running(t0, t1, hash, v, v, t0.buckets[Slot(v, t0)])
  {
    hide *;
    TableShaped(t0, hash);
    BucketIsStored(t0, t1, hash, v);
    OnceAtFirst(t0, t1, hash, v);
    RunningIs(t0, t1, hash, v, v, t0.buckets[Slot(v, t0)]);
  }

  /** What a round emits, and what it leaves. */
  lemma RunningEmits<K(!new), V>(t0: Table<K, V>, t1: Table<K, V>, hash: K -> bv64, v0: bv64, v: bv64,
                                 out: seq<Entry<K, V>>)
    requires TableInv(t0, hash) && TableInv(t1, hash) && t0.buckets != [] && t1.buckets != []
    requires Subset(t0.mask, t1.mask) && Running(t0, t1, hash, v0, v, out)
    ensures var out', v' := out + t1.buckets[Slot(v, t1)], Advance(v, t1.mask);
            && Emitted(t0, hash, v0, v', out') && Emitted(t1, hash, v0, v', out') && StoredInOne(t0, t1, hash, out')
            && (forall e :: e in t0.buckets[Slot(v0, t0)] ==> e in out')
            && (v' == 0 || Place(v0) <= Place(v) < Place(v'))
  {
    hide *;
    TableShaped(t0, hash);
    TableShaped(t1, hash);
    var b, v' := t1.buckets[Slot(v, t1)], Advance(v, t1.mask);
    RunningParts(t0, t1, hash, v0, v, out);
    MaskIs(t1);
    BucketIsStored(t1, t0, hash, v);
    StoredJoin(t0, t1, hash, out, b);
    BucketEmits(t1, hash, v);
    SmallBucketHolds(t0, hash, v0, v, t1.mask, out + b);
    EmittedGrows(t1, hash, v, v', out, b);
    EmittedJoin(t0, hash, v0, v, v', out, b);
    EmittedJoin(t1, hash, v0, v, v', out, b);
  }

  lemma MaskIs<K, V>(t: Table<K, V>) requires Shaped(t) ensures LowMask(t.mask) {}

  /** One round of the loop: it ends the run at the smaller table's next cursor, or goes on. */
  lemma RunningStep<K(!new), V>(t0: Table<K, V>, t1: Table<K, V>, hash: K -> bv64, v0: bv64, v: bv64,
                                out: seq<Entry<K, V>>)
    requires TableInv(t0, hash) && TableInv(t1, hash) && t0.buckets != [] && t1.buckets != []
    requires Apart(t0, t1, hash) && Subset(t0.mask, t1.mask) && Running(t0, t1, hash, v0, v, out)
    ensures var out', v' := out + t1.buckets[Slot(v, t1)], Advance(v, t1.mask);
            && Emitted(t0, hash, v0, v', out') && Emitted(t1, hash, v0, v', out') && StoredInOne(t0, t1, hash, out')
            && Distinct(out') && (forall i :: 0 <= i < |out'| ==> SameBucket(t0, hash, v0, out'[i].key))
            && (v' == 0 || Place(v0) <= Place(v) < Place(v'))
            && if And(v', Xor(t0.mask, t1.mask)) == 0 then v' == Advance(v0, t0.mask)
               else v' != 0 && Running(t0, t1, hash, v0, v', out')
  {
    hide *;
    var v' := Advance(v, t1.mask);
    TableShaped(t0, hash);
    TableShaped(t1, hash);
    RunningParts(t0, t1, hash, v0, v, out);
    MaskIs(t0);
    MaskIs(t1);
    OnceMore(t0, t1, hash, v0, v, out);
    RunningEmits(t0, t1, hash, v0, v, out);
    if And(v', Xor(t0.mask, t1.mask)) == 0 {
      AdvanceMeets(v, t0.mask, t1.mask);
      AdvanceSame(v, v0, t0.mask);
    } else {
      ZeroAnd(Xor(t0.mask, t1.mask));
      AdvanceMasked(v, t1.mask);
      AdvanceStays(v, t0.mask, t1.mask);
      RunningIs(t0, t1, hash, v0, v', out + t1.buckets[Slot(v, t1)]);
    }
  }

  /** Emitting the bucket of the smaller table, then the buckets of the bigger one that the
      cursor runs through while it stays in that bucket. */
  method ScanTwo<K(==, !new), V>(t0: Table<K, V>, t1: Table<K, V>, hash: K -> bv64, v0: bv64)
    returns (v: bv64, out: seq<Entry<K, V>>)
    requires TableInv(t0, hash) && TableInv(t1, hash) && 0 < t0.Size() <= t1.Size() && Apart(t0, t1, hash)
    ensures v == 0 || Place(v0) < Place(v)
    ensures v == Advance(v0, t0.mask)
    ensures Distinct(out) && forall i :: 0 <= i < |out| ==> SameBucket(t0, hash, v0, out[i].key)
    ensures Emitted(t0, hash, v0, v, out) && Emitted(t1, hash, v0, v, out)
    ensures StoredInOne(t0, t1, hash, out)
  {
    hide *;
    var m0, m1 := t0.mask, t1.mask;
    TableShaped(t0, hash);
    TableShaped(t1, hash);
    TablesNest(t0, t1);
    v := v0;
    out := t0.buckets[Slot(v, t0)];
    RunningStarts(t0, t1, hash, v);
    while true
      invariant Running(t0, t1, hash, v0, v, out)
      decreases LAST - Place(v)
    {
      RunningStep(t0, t1, hash, v0, v, out);
      out := out + t1.buckets[Slot(v, t1)];
      v := Step(v, m1);
      PlaceBound(v);
      AndXor(v, m0, m1);
      if v & (m0 ^ m1) == 0 { break; }
    }
  }

  lemma StandsIsInv<K(!new), V>(s: State<K, V>, hash: K -> bv64, m: map<K, V>)
    requires Stands(s, hash, m)
    ensures Inv(s, hash) && TableInv(s.ht0, hash) && TableInv(s.ht1, hash)
  {
    hide Placed, Count, InTable, Lookup, Shaped;
  }

  lemma EmptyScan<K(!new), V>(s: State<K, V>, hash: K -> bv64, m: map<K, V>, v: bv64)
    requires Stands(s, hash, m) && s.Used() == 0
    ensures Inv(s, hash) && ScanStep(s, hash, v, 0, [])
  {
    hide Placed, Count, InTable, Place, Smaller, SameBucket;
    assert m == map[];
    forall k ensures Lookup(s, hash, k).None? {
      MapAndTables(s, hash, m, k);
    }
  }

  lemma NoTableEmits<K(!new), V>(hash: K -> bv64, v: bv64, v': bv64, out: seq<Entry<K, V>>)
    ensures Shaped(NoTable<K, V>()) && Emitted(NoTable<K, V>(), hash, v, v', out)
  {
    hide Place;
  }

  // ----- Whole scans -----

  /** A run of calls: before call i the dictionary is in state[i], whatever happened to it
      since the call before, and that call takes cursor[i] to cursor[i + 1]. */
  datatype Run<K, V> = Run(states: seq<State<K, V>>, cursors: seq<bv64>, outs: seq<seq<Entry<K, V>>>)

  ghost predicate ScanRun<K(!new), V>(r: Run<K, V>, hash: K -> bv64)
  {
    && |r.cursors| == |r.states| + 1 && |r.outs| == |r.states| && r.cursors[0] == 0
    && (forall i :: 0 <= i < |r.states| ==>
         Inv(r.states[i], hash) && ScanStep(r.states[i], hash, r.cursors[i], r.cursors[i + 1], r.outs[i]))
    && (forall i :: 0 < i < |r.states| ==> r.cursors[i] != 0)
  }

  /** The key is stored at every call. */
  ghost predicate PresentThroughout<K(!new), V>(r: Run<K, V>, hash: K -> bv64, k: K)
    requires ScanRun(r, hash)
  {
    forall i :: 0 <= i < |r.states| ==> Lookup(r.states[i], hash, k).Some?
  }

  ghost predicate EmittedKey<K, V>(out: seq<Entry<K, V>>, k: K) { exists j :: 0 <= j < |out| && out[j].key == k }

  /** Until the cursors reach a key's place, each call leaves them short of it or emits it. */
  lemma {:induction false} EmittedBefore<K(!new), V>(r: Run<K, V>, hash: K -> bv64, k: K, n: nat)
    requires ScanRun(r, hash) && PresentThroughout(r, hash, k) && n <= |r.states|
    requires n > 0
    ensures (r.cursors[n] != 0 && Place(r.cursors[n]) <= Place(hash(k)))
            || exists i :: 0 <= i < n && EmittedKey(r.outs[i], k)
  {
    hide Place, Lookup, Placed, Count, InTable;
    PlaceZero();
    if n > 1 { EmittedBefore(r, hash, k, n - 1); }
    var s, v, v', out := r.states[n - 1], r.cursors[n - 1], r.cursors[n], r.outs[n - 1];
    if Place(v) <= Place(hash(k)) && (v' == 0 || Place(hash(k)) < Place(v')) {
      assert Covers(s, hash, v, v', k);
      var j :| 0 <= j < |out| && out[j] == Entry(k, Lookup(s, hash, k).value);
      assert EmittedKey(r.outs[n - 1], k);
    }
  }

  lemma PlaceZero()
    ensures Place(0) == 0
  {
    RevZero();
    ZeroVal(64);
  }

  /** Scan completeness: a scan from cursor 0 that has come back to 0 has emitted every key
      that was stored at each of its calls, whatever was added, deleted, resized or rehashed
      between them. */
  lemma ScanComplete<K(!new), V>(r: Run<K, V>, hash: K -> bv64, k: K)
    requires ScanRun(r, hash) && |r.states| > 0 && r.cursors[|r.states|] == 0
    requires PresentThroughout(r, hash, k)
    ensures exists i :: 0 <= i < |r.states| && EmittedKey(r.outs[i], k)
  {
    EmittedBefore(r, hash, k, |r.states|);
  }

  /** The scan ends: after n calls that have not come back to 0 the cursor is at place n or
      beyond, so there are at most 2^64 calls. */
  lemma {:induction false} ScanEnds<K(!new), V>(r: Run<K, V>, hash: K -> bv64, n: nat)
    requires ScanRun(r, hash) && n < |r.states|
    ensures n <= Place(r.cursors[n]) <= 0xFFFF_FFFF_FFFF_FFFF
  {
    LastIs();
    hide Place, Lookup, Inv;
    PlaceBound(r.cursors[n]);
    if n > 0 {
      ScanEnds(r, hash, n - 1);
      assert r.cursors[n] != 0;
      assert ScanStep(r.states[n - 1], hash, r.cursors[n - 1], r.cursors[n], r.outs[n - 1]);
    }
  }

  // ----- Scans while nothing changes -----

  ghost predicate Steady<K(!new), V>(r: Run<K, V>, hash: K -> bv64, s: State<K, V>)
  {
    ScanRun(r, hash) && |r.states| > 0 && forall i :: 0 <= i < |r.states| ==> r.states[i] == s
  }

  lemma SteadySome<K(!new), V>(r: Run<K, V>, hash: K -> bv64, s: State<K, V>)
    requires Steady(r, hash, s)
    ensures |r.states| > 0 && ScanRun(r, hash)
  {
    hide ScanRun;
  }

  lemma SteadyCall<K(!new), V>(r: Run<K, V>, hash: K -> bv64, s: State<K, V>, n: nat)
    requires Steady(r, hash, s) && n < |r.states|
    ensures Inv(s, hash) && |r.cursors| == |r.states| + 1 && |r.outs| == |r.states| && r.cursors[0] == 0
    ensures r.cursors[n + 1] == if s.Used() == 0 then 0 else Advance(r.cursors[n], Smaller(s).mask)
    ensures n + 1 < |r.states| ==> r.cursors[n + 1] != 0
    ensures Distinct(r.outs[n])
    ensures forall i :: 0 <= i < |r.outs[n]| ==> SameBucket(Smaller(s), hash, r.cursors[n], r.outs[n][i].key)
    ensures forall i :: 0 <= i < |r.outs[n]| ==> IsStored(s, hash, r.outs[n][i])
  {
    hide *;
    SteadyAt(r, hash, s, n);
    StepParts(s, hash, r.cursors[n], r.cursors[n + 1], r.outs[n]);
  }

  lemma SteadyAt<K(!new), V>(r: Run<K, V>, hash: K -> bv64, s: State<K, V>, n: nat)
    requires Steady(r, hash, s) && n < |r.states|
    ensures Inv(s, hash) && |r.cursors| == |r.states| + 1 && |r.outs| == |r.states| && r.cursors[0] == 0
    ensures ScanStep(s, hash, r.cursors[n], r.cursors[n + 1], r.outs[n])
    ensures n + 1 < |r.states| ==> r.cursors[n + 1] != 0
  {
    assert r.states[n] == s;
    hide Inv, ScanStep;
  }

  lemma StepParts<K(!new), V>(s: State<K, V>, hash: K -> bv64, v: bv64, v': bv64, out: seq<Entry<K, V>>)
    requires Inv(s, hash) && ScanStep(s, hash, v, v', out)
    ensures v' == if s.Used() == 0 then 0 else Advance(v, Smaller(s).mask)
    ensures Distinct(out) && forall i :: 0 <= i < |out| ==> SameBucket(Smaller(s), hash, v, out[i].key)
    ensures forall i :: 0 <= i < |out| ==> IsStored(s, hash, out[i])
  {
    hide Inv, Lookup, Place, Advance, Smaller, SameBucket, Distinct;
  }

  ghost predicate IsStored<K(!new), V>(s: State<K, V>, hash: K -> bv64, e: Entry<K, V>)
    requires Inv(s, hash)
  {
    Lookup(s, hash, e.key) == Some(e.val)
  }

  lemma SmallerShaped<K(!new), V>(s: State<K, V>, hash: K -> bv64)
    requires Inv(s, hash) && s.Used() > 0
    ensures LowMask(Smaller(s).mask) && Smaller(s).Size() == Val(Smaller(s).mask) + 1
  {
    hide Placed, Count, InTable, LowMask, Val;
  }

  /** After n calls the cursor is at the n-th bucket's place. */
  lemma {:induction false} SteadyPlace<K(!new), V>(r: Run<K, V>, hash: K -> bv64, s: State<K, V>, n: nat)
    requires Steady(r, hash, s) && s.Used() > 0 && n <= |r.states|
    ensures |r.cursors| == |r.states| + 1 && And(r.cursors[n], Not(Smaller(s).mask)) == 0
    ensures if n > 0 && r.cursors[n] == 0 then n * Span(Smaller(s).mask) == 0x1_0000_0000_0000_0000
            else Place(r.cursors[n]) == n * Span(Smaller(s).mask)
  {
    hide *;
    if n == 0 {
      SteadySome(r, hash, s);
      SteadyCall(r, hash, s, 0);
      PlaceZero();
      ZeroAnd(Not(Smaller(s).mask));
    } else {
      SteadyPlace(r, hash, s, n - 1);
      SteadyCall(r, hash, s, n - 1);
      if n > 1 { SteadyCall(r, hash, s, n - 2); }
      SmallerShaped(s, hash);
      AdvanceBy(r.cursors[n - 1], Smaller(s).mask);
      OneMore(n - 1, Span(Smaller(s).mask));
    }
  }

  lemma OneMore(n: nat, d: nat) ensures (n + 1) * d == n * d + d {}
  lemma SameFactor(a: nat, b: nat, d: nat) requires d > 0 && a * d == b * d ensures a == b {}

  /** A whole scan while nothing changes makes as many calls as the smaller table has buckets;
      one, if nothing is stored. */
  lemma ScanTakes<K(!new), V>(r: Run<K, V>, hash: K -> bv64, s: State<K, V>)
    requires Steady(r, hash, s) && |r.cursors| == |r.states| + 1 && r.cursors[|r.states|] == 0
    ensures |r.states| == if s.Used() == 0 then 1 else Smaller(s).Size()
  {
    hide *;
    SteadySome(r, hash, s);
    SteadyCall(r, hash, s, 0);
    if s.Used() > 0 {
      SteadyPlace(r, hash, s, |r.states|);
      SmallerShaped(s, hash);
      SpanTimes(Smaller(s).mask);
      SpanIs(Smaller(s).mask);
      SameFactor(|r.states|, Smaller(s).Size(), Span(Smaller(s).mask));
    }
  }

  /** The `j`-th entry emitted by call `i` has this key. */
  ghost predicate EmittedAt<K, V>(r: Run<K, V>, i: int, j: int, k: K)
  {
    0 <= i < |r.outs| && 0 <= j < |r.outs[i]| && r.outs[i][j].key == k
  }

  /** It emits no key twice, and each stored key with its value once. */
  lemma ScanOnce<K(!new), V>(r: Run<K, V>, hash: K -> bv64, s: State<K, V>, k: K)
    requires Steady(r, hash, s) && |r.cursors| == |r.states| + 1 && r.cursors[|r.states|] == 0
    ensures Inv(s, hash)
    ensures forall i, j, i', j' :: EmittedAt(r, i, j, k) && EmittedAt(r, i', j', k) ==> i == i' && j == j'
    ensures Lookup(s, hash, k).Some? <==> exists i, j :: EmittedAt(r, i, j, k)
    ensures forall i, j :: EmittedAt(r, i, j, k) ==> Lookup(s, hash, k) == Some(r.outs[i][j].val)
  {
    SteadyCall(r, hash, s, 0);
    hide *;
    forall i, j, i', j' | EmittedAt(r, i, j, k) && EmittedAt(r, i', j', k) ensures i == i' && j == j' {
      EmittedOnce(r, hash, s, k, i, j, i', j');
    }
    forall i, j | EmittedAt(r, i, j, k) ensures Lookup(s, hash, k) == Some(r.outs[i][j].val) {
      EmittedIsStored(r, hash, s, k, i, j);
    }
    if Lookup(s, hash, k).Some? {
      SteadyPresent(r, hash, s, k);
      ScanComplete(r, hash, k);
      EmittedSomewhere(r, k);
    }
  }

  lemma EmittedIsStored<K(!new), V>(r: Run<K, V>, hash: K -> bv64, s: State<K, V>, k: K, i: int, j: int)
    requires Steady(r, hash, s) && EmittedAt(r, i, j, k) && Inv(s, hash) && |r.outs| == |r.states|
    ensures Lookup(s, hash, k) == Some(r.outs[i][j].val)
  {
    SteadyCall(r, hash, s, i);
    hide Steady, Inv, Lookup, SameBucket, Distinct;
  }

  lemma SteadyPresent<K(!new), V>(r: Run<K, V>, hash: K -> bv64, s: State<K, V>, k: K)
    requires Steady(r, hash, s) && Inv(s, hash) && Lookup(s, hash, k).Some?
    ensures ScanRun(r, hash) && |r.states| > 0 && PresentThroughout(r, hash, k)
  {
    hide Inv, Lookup, ScanRun;
  }

  lemma EmittedSomewhere<K(!new), V>(r: Run<K, V>, k: K)
    requires |r.outs| == |r.states| && exists i :: 0 <= i < |r.states| && EmittedKey(r.outs[i], k)
    ensures exists i, j :: EmittedAt(r, i, j, k)
  {
    var i :| 0 <= i < |r.states| && EmittedKey(r.outs[i], k);
    var j :| 0 <= j < |r.outs[i]| && r.outs[i][j].key == k;
    assert EmittedAt(r, i, j, k);
  }

  lemma EmittedOnce<K(!new), V>(r: Run<K, V>, hash: K -> bv64, s: State<K, V>, k: K, i: int, j: int, i': int, j': int)
    requires Steady(r, hash, s) && EmittedAt(r, i, j, k) && EmittedAt(r, i', j', k) && |r.outs| == |r.states|
    ensures i == i' && j == j'
  {
    hide *;
    EmittedIs(r, i, j, k);
    EmittedIs(r, i', j', k);
    EmittedPlace(r, hash, s, k, i, j);
    EmittedPlace(r, hash, s, k, i', j');
    SpanIs(Smaller(s).mask);
    SameFactor(i, i', Span(Smaller(s).mask));
    SteadyCall(r, hash, s, i);
    DistinctAt(r.outs[i], j, j');
  }

  lemma EmittedIs<K(!new), V>(r: Run<K, V>, i: int, j: int, k: K)
    requires EmittedAt(r, i, j, k)
    ensures 0 <= i < |r.outs| && 0 <= j < |r.outs[i]| && r.outs[i][j].key == k
  {}

  lemma DistinctAt<K(!new), V>(c: seq<Entry<K, V>>, i: int, j: int)
    requires Distinct(c) && 0 <= i < |c| && 0 <= j < |c| && c[i].key == c[j].key
    ensures i == j
  {}

  /** A key is emitted by the call whose cursor is at the place of its bucket. */
  lemma EmittedPlace<K(!new), V>(r: Run<K, V>, hash: K -> bv64, s: State<K, V>, k: K, i: int, j: int)
    requires Steady(r, hash, s) && EmittedAt(r, i, j, k) && 0 <= i < |r.outs| == |r.states|
    ensures Place(And(hash(k), Smaller(s).mask)) == i * Span(Smaller(s).mask)
  {
    hide *;
    EmittedIs(r, i, j, k);
    SteadyCall(r, hash, s, i);
    NothingFromNothing(r, hash, s, i, j);
    SteadyPlace(r, hash, s, i);
    if i > 0 { SteadyCall(r, hash, s, i - 1); }
    BucketPlace(Smaller(s), hash, r.cursors[i], k);
    Aligned(r.cursors[i], Smaller(s).mask);
  }

  lemma NothingFromNothing<K(!new), V>(r: Run<K, V>, hash: K -> bv64, s: State<K, V>, i: int, j: int)
    requires Steady(r, hash, s) && 0 <= i < |r.outs| == |r.states| && 0 <= j < |r.outs[i]|
    ensures s.Used() > 0
  {
    SteadyCall(r, hash, s, i);
    var k := r.outs[i][j].key;
    assert IsStored(s, hash, r.outs[i][j]);
    assert Lookup(s, hash, k).Some?;
    hide Steady, Slot, Placed, SameBucket, Smaller, Advance, Distinct, IsStored, LowMask, Val;
    StoredCounts(s.ht0, hash, k);
    StoredCounts(s.ht1, hash, k);
  }

  lemma StoredCounts<K(!new), V>(t: Table<K, V>, hash: K -> bv64, k: K)
    requires TableInv(t, hash)
    ensures InTable(t, hash, k).Some? ==> t.used > 0
  {
    hide LowMask, Val, Placed;
    if InTable(t, hash, k).Some? {
      var i := InChainFinds(t.buckets[Slot(hash(k), t)], k);
      CountAt(t.buckets, Slot(hash(k), t));
    }
  }

  lemma {:induction false} CountAt<K(!new), V>(b: seq<Chain<K, V>>, i: nat)
    requires i < |b|
    ensures |b[i]| <= Count(b)
  {
    if i > 0 { CountAt(b[1..], i - 1); }
  }
}
