/** The operations of dict.c on a dictionary object, proved against the map it stands for. */
module DictOps {
  import opened Bits
  import opened DictState
  import opened Options
  import opened DictScan

  const INITIAL_SIZE := 4
  const MIN_FILL := 10
  const FORCE_RATIO := 5
  const LONG_MAX := 0x7FFF_FFFF_FFFF_FFFF

  // ----- Sizes -----

  function Up(i: nat, size: nat): (r: nat)
    requires i > 0
    ensures r >= size && r >= i
    decreases size - i
  {
    if i >= size then i else Up(2 * i, size)
  }

  /** The capacity chosen for a wanted size. */
  function PowerFor(size: nat): nat
  {
    if size >= LONG_MAX then 0x8000_0000_0000_0000 else Up(INITIAL_SIZE, size)
  }

  lemma {:induction false} UpIsPower(k: nat, size: nat) returns (n: nat)
    requires 2 <= k <= 63 && size < LONG_MAX
    ensures k <= n <= 63 && Pow2(n) == Up(Pow2(k), size)
    decreases 63 - k
  {
    if Pow2(k) >= size {
      n := k;
    } else {
      Pow2Of63();
      if k == 63 { assert false; }
      n := UpIsPower(k + 1, size);
    }
  }

  /** Every capacity is a power of two between 4 and 2^63. */
  lemma PowerForIsPower(size: nat) returns (n: nat)
    ensures 2 <= n <= 63 && PowerFor(size) == Pow2(n)
  {
    if size >= LONG_MAX {
      Pow2Of63();
      n := 63;
    } else {
      assert Pow2(2) == 2 * Pow2(1) == 4;
      n := UpIsPower(2, size);
    }
  }

  /** And it is the least such power that is not below the wanted size. */
  lemma PowerForLeast(size: nat)
    requires size < LONG_MAX
    ensures PowerFor(size) >= size && PowerFor(size) >= 4 && (PowerFor(size) > 4 ==> PowerFor(size) < 2 * size)
  {
    UpLeast(INITIAL_SIZE, size);
  }

  lemma {:induction false} UpLeast(i: nat, size: nat)
    requires i > 0
    ensures Up(i, size) == i || Up(i, size) < 2 * size
    decreases size - i
  {
    if i < size { UpLeast(2 * i, size); }
  }

  method NextPower(size: nat) returns (i: nat)
    ensures i == PowerFor(size)
  {
    i := INITIAL_SIZE;
    if size >= LONG_MAX { return 0x8000_0000_0000_0000; }
    while true
      invariant i > 0 && Up(i, size) == PowerFor(size)
      decreases size - i
    {
      if i >= size { return; }
      i := i * 2;
    }
  }

  // ----- The dictionary object -----

  /** A table of `n` empty buckets, with the mask n - 1. */
  function Fresh<K, V>(n: nat): Table<K, V>
    requires n > 0
  {
    Table(seq(n, _ => []), Word(n - 1), 0)
  }

  lemma FreshInv<K(!new), V>(size: nat, hash: K -> bv64)
    ensures PowerFor(size) > 0
    ensures var t := Fresh<K, V>(PowerFor(size));
            TableInv(t, hash) && t.buckets != [] && t.used == 0 && forall k :: InTable(t, hash, k).None?
  {
    var n := PowerForIsPower(size);
    FreshShape<K, V>(n);
    hide LowVal, LowMask, Word, Mask, Slot, PowerFor, Pow2, Val;
    var t := Fresh<K, V>(Pow2(n));
    assert Placed(t, hash);
    CountZero(t.buckets);
  }

  lemma FreshShape<K, V>(n: nat)
    requires 2 <= n <= 63
    ensures Shaped(Fresh<K, V>(Pow2(n)))
  {
    hide LowVal, LowMask, Word, Mask, Pow2;
    WordMask(n);
    MaskShape(n);
    MaskVal(n, 64);
  }

  class Dict<K(==, !new), V> {
    const hash: K -> bv64
    var ht0: Table<K, V>
    var ht1: Table<K, V>
    var rehashidx: int
    var iterators: nat
    var canResize: bool
    ghost var m: map<K, V>

    ghost function S(): State<K, V>
      reads this
    {
      State(ht0, ht1, rehashidx, iterators)
    }

    ghost predicate Valid()
      reads this
    {
      Stands(S(), hash, m)
    }

    constructor (hash: K -> bv64)
      ensures Valid() && this.hash == hash && m == map[] && iterators == 0 && !S().Rehashing() && canResize
    {
      this.hash := hash;
      ht0, ht1, rehashidx, iterators, canResize := NoTable(), NoTable(), -1, 0, true;
      m := map[];
    }

    /** dictExpand: refused while rehashing, when the wanted size is below the number of
        entries, or when the capacity would not change. */
    method Expand(size: nat) returns (ok: bool)
      requires Valid()
      modifies this`ht0, this`ht1, this`rehashidx
      ensures Valid()
      ensures ok <==> !old(S()).Rehashing() && old(ht0.used) <= size && PowerFor(size) != old(ht0.Size())
      ensures !ok ==> S() == old(S())
      ensures ok && old(ht0.Size()) == 0 ==> !S().Rehashing() && ht0 == Fresh(PowerFor(size))
      ensures ok && old(ht0.Size()) > 0 ==> rehashidx == 0 && ht0 == old(ht0) && ht1 == Fresh(PowerFor(size))
    {
      hide Stands, TableInv, Shaped, InTable, Lookup, Fresh, PowerFor, Up, Word;
      var realsize := NextPower(size);
      if rehashidx != -1 || ht0.used > size { return false; }
      if realsize == ht0.Size() { return false; }
      FreshInv<K, V>(size, hash);
      var n := Fresh<K, V>(realsize);
      RehashStartedStands(S(), hash, n, m);
      if ht0.Size() == 0 {
        ht0 := n;
      } else {
        ht1 := n;
        rehashidx := 0;
      }
      return true;
    }

    /** Move every entry of the bucket at the rehash index, head first. */
    method MoveBucket()
      requires Valid() && S().Rehashing() && 0 <= rehashidx < |ht0.buckets| && ht0.buckets[rehashidx] != []
      modifies this`ht0, this`ht1, this`rehashidx
      ensures Valid() && rehashidx == old(rehashidx) + 1
      ensures ht0.Size() == old(ht0.Size()) && ht1.Size() == old(ht1.Size())
    {
      hide Stands, Slot;
      var de := ht0.buckets[rehashidx];
      ghost var s := S();
      assert s.ht0.buckets == ht0.buckets[rehashidx := de];
      while de != []
        invariant rehashidx == old(rehashidx) && rehashidx < |ht0.buckets|
        invariant s == State(ht0.(buckets := ht0.buckets[rehashidx := de]), ht1, rehashidx, iterators)
        invariant Stands(s, hash, m)
        invariant ht0.Size() == old(ht0.Size()) && ht1.Size() == old(ht1.Size())
        decreases |de|
      {
        MoveHeadStands(s, hash, m);
        s := MoveHead(s, hash);
        var nextde := de[1..];
        var h := Slot(hash(de[0].key), ht1);
        ht1 := Table(ht1.buckets[h := [de[0]] + ht1.buckets[h]], ht1.mask, ht1.used + 1);
        ht0 := ht0.(used := ht0.used - 1);
        de := nextde;
        assert s.ht0.buckets == ht0.buckets[rehashidx := de];
      }
      ht0 := ht0.(buckets := ht0.buckets[rehashidx := []]);
      assert s == S();
      BucketPassedStands(s, hash, m);
      rehashidx := rehashidx + 1;
    }

    /** dictRehash: up to `n` buckets, giving up after 10n empty ones. `moved` of those it has
        passed had entries to move, `empty` had none. */
    method Rehash(n: nat) returns (more: bool, ghost moved: nat, ghost empty: nat)
      requires Valid()
      modifies this`ht0, this`ht1, this`rehashidx
      ensures Valid() && (more <==> S().Rehashing())
      ensures !old(S()).Rehashing() ==> S() == old(S())
      ensures Advanced(old(S()), S(), n)
      ensures moved <= n && empty <= 10 * n && (more ==> rehashidx == old(rehashidx) + moved + empty)
      ensures more ==> moved == n || empty == 10 * n
    {
      hide Stands, Slot, Shaped;
      moved, empty := 0, 0;
      var left, emptyVisits := n, 10 * n;
      if rehashidx == -1 { return false, 0, 0; }
      Fields(S(), hash, m);
      while left > 0 && ht0.used != 0
        invariant Valid() && 0 <= rehashidx && 0 <= left <= n
        invariant ht0.Size() == old(ht0.Size()) && ht1.Size() == old(ht1.Size())
        invariant (emptyVisits > 0 || n == 0 == emptyVisits) && moved == n - left && empty == 10 * n - emptyVisits
        invariant rehashidx == old(rehashidx) + moved + empty
        decreases left
      {
        left := left - 1;
        ghost var j := BucketAheadStands(S(), hash, m);
        while ht0.buckets[rehashidx] == []
          invariant Valid() && 0 <= rehashidx <= j < |ht0.buckets| && ht0.buckets[j] != []
          invariant ht0.Size() == old(ht0.Size()) && ht1.Size() == old(ht1.Size())
          invariant 0 < emptyVisits && moved == n - left - 1 && empty == 10 * n - emptyVisits
          invariant rehashidx == old(rehashidx) + moved + empty
          decreases j - rehashidx
        {
          BucketPassedStands(S(), hash, m);
          rehashidx := rehashidx + 1;
          emptyVisits, empty := emptyVisits - 1, empty + 1;
          if emptyVisits == 0 { more := true; return; }
        }
        MoveBucket();
        moved := moved + 1;
      }
      if ht0.used == 0 {
        RehashFinishedStands(S(), hash, m);
        ht0, ht1, rehashidx := ht1, NoTable(), -1;
        more := false;
        return;
      }
      ghost var j := BucketAheadStands(S(), hash, m);
      more := true;
    }

    /** _dictRehashStep: nothing while safe iterators are running. */
    method RehashStep()
      requires Valid()
      modifies this`ht0, this`ht1, this`rehashidx
      ensures Valid()
      ensures Stepped(old(S()), S())
    {
      Fields(S(), hash, m);
      hide Stands;
      var more;
      ghost var moved, empty;
      if iterators == 0 { more, moved, empty := Rehash(1); }
      Fields(S(), hash, m);
    }

    /** dictResize. The count goes through a 32-bit int first. */
    method Resize() returns (ok: bool)
      requires Valid()
      modifies this`ht0, this`ht1, this`rehashidx
      ensures Valid()
      ensures ok <==> canResize && !old(S()).Rehashing() && old(ht0.used) < 0x8000_0000
                      && PowerFor(ResizeGoal(old(ht0.used))) != old(ht0.Size())
      ensures !ok ==> S() == old(S())
      ensures ok && old(ht0.Size()) > 0 ==>
              rehashidx == 0 && ht0 == old(ht0) && ht1 == Fresh(PowerFor(ResizeGoal(ht0.used)))
    {
      Int32Small(ht0.used);
      hide Stands, PowerFor, Int32, Fresh;
      if !canResize || rehashidx != -1 { return false; }
      var minimal := Int32(ht0.used);
      if minimal < INITIAL_SIZE { minimal := INITIAL_SIZE; }
      ok := Expand(minimal);
    }

    /** _dictExpandIfNeeded; the used counts stay far below what could overflow. */
    method ExpandIfNeeded() returns (ok: bool)
      requires Valid() && S().Used() < LONG_MAX / 2
      modifies this`ht0, this`ht1, this`rehashidx
      ensures Valid() && ok && ht0.buckets != []
      ensures S() == old(S()) || Started(old(S()), S())
      ensures Started(old(S()), S()) <==> NeedsRoom(old(S()), canResize)
    {
      hide Stands, Started, NeedsRoom, PowerFor, Fresh, Inv;
      ghost var s := S();
      StandsFields(s, hash, m);
      NotStarted(s);
      NeedsRoomIs(s, canResize);
      Quadruple();
      if rehashidx != -1 { return true; }
      if ht0.Size() == 0 {
        ok := Expand(INITIAL_SIZE);
        StartedIs(s, S(), INITIAL_SIZE);
        return;
      }
      PowerForLeast(ht0.used * 2);
      if ht0.used >= ht0.Size() && (canResize || ht0.used / ht0.Size() > FORCE_RATIO) {
        ok := Expand(ht0.used * 2);
        StartedIs(s, S(), ht0.used * 2);
        return;
      }
      return true;
    }

    /** The chain walk every lookup makes: position of the key in the chain, or -1. */
    method Walk(c: Chain<K, V>, k: K) returns (pos: int)
      ensures -1 <= pos < |c|
      ensures if pos < 0 then InChain(c, k).None? else c[pos].key == k && InChain(c, k) == Some(c[pos].val)
    {
      pos := 0;
      var he := c;
      while he != []
        invariant 0 <= pos <= |c| && he == c[pos..]
        invariant InChain(c, k) == InChain(he, k)
        decreases |he|
      {
        if he[0].key == k { return; }
        he := he[1..];
        pos := pos + 1;
      }
      pos := -1;
    }

    /** The loop over the two tables shared by find, insert and delete: where the key is, or
        else -1 and the bucket a new entry would go to. */
    method Locate(k: K) returns (second: bool, idx: nat, pos: int)
      requires Valid() && ht0.buckets != []
      ensures idx < |TableOf(S(), second).buckets| && -1 <= pos < |TableOf(S(), second).buckets[idx]|
      ensures pos >= 0 ==> k in m && TableOf(S(), second).buckets[idx][pos] == Entry(k, m[k])
      ensures pos < 0 ==> k !in m && second == S().Rehashing()
                          && Shaped(TableOf(S(), second)) && idx == Slot(hash(k), TableOf(S(), second))
    {
      Fields(S(), hash, m);
      MapAndTables(S(), hash, m, k);
      hide Stands, Slot, Shaped, InChain, Lookup;
      second := false;
      idx := Slot(hash(k), ht0);
      pos := Walk(ht0.buckets[idx], k);
      if pos >= 0 || rehashidx == -1 { return; }
      second := true;
      idx := Slot(hash(k), ht1);
      pos := Walk(ht1.buckets[idx], k);
    }

    /** dictFind. */
    method Find(k: K) returns (r: Option<V>)
      requires Valid()
      modifies this`ht0, this`ht1, this`rehashidx
      ensures Valid() && r == if k in m then Some(m[k]) else None
      ensures Begun(old(S()), S())
    {
      hide Stands;
      Fields(S(), hash, m);
      if ht0.used + ht1.used == 0 { return None; }
      if rehashidx != -1 { RehashStep(); }
      Fields(S(), hash, m);
      var second, idx, pos := Locate(k);
      r := if pos < 0 then None else Some((if second then ht1 else ht0).buckets[idx][pos].val);
    }

    /** dictAddRaw, with the value its callers store in the new entry. The new entry goes to
        the head of its bucket in the table being filled; `s1` and `s2` are the states after
        the rehash step and after making room. */
    method AddRaw(k: K, v: V)
      returns (added: bool, second: bool, idx: nat, pos: int, ghost s1: State<K, V>, ghost s2: State<K, V>)
      requires Valid() && S().Used() < LONG_MAX / 2
      modifies this`ht0, this`ht1, this`rehashidx, this`m
      ensures Valid() && (added <==> k !in old(m))
      ensures m == if added then old(m)[k := v] else old(m)
      ensures !added ==> idx < |TableOf(S(), second).buckets| && 0 <= pos < |TableOf(S(), second).buckets[idx]|
                         && TableOf(S(), second).buckets[idx][pos] == Entry(k, m[k])
      ensures Stepped(old(S()), s1) && (s2 == s1 || Started(s1, s2))
      ensures Inv(s2, hash)
      ensures var t := TableOf(s2, s2.Rehashing());
              && t.buckets != []
              && S() == if added then Inserted(s2, Entry(k, v), Slot(hash(k), t)) else s2
      ensures Started(s1, s2) <==> NeedsRoom(s1, canResize)
      ensures canResize && !s1.Rehashing() ==> Roomy(S())
    {
      hide Stands, Slot, Shaped, Inv, Stepped, Started, NeedsRoom;
      Fields(S(), hash, m);
      NoStep(S());
      if rehashidx != -1 { RehashStep(); }
      s1 := S();
      Fields(S(), hash, m);
      SameUsed(old(S()), s1);
      var ok := ExpandIfNeeded();
      s2 := S();
      RoomMade(s1, s2, canResize);
      StandsIsInv(S(), hash, m);
      Fields(S(), hash, m);
      second, idx, pos := Locate(k);
      added := pos < 0;
      if added { PushNew(k, v, idx); }
    }

    /** The new entry, at the head of its bucket in the table being filled. */
    method PushNew(k: K, v: V, idx: nat)
      requires Valid() && k !in m && ht0.buckets != []
      requires var t := TableOf(S(), S().Rehashing()); Shaped(t) && t.buckets != [] && idx == Slot(hash(k), t)
      modifies this`ht0, this`ht1, this`m
      ensures Valid() && m == old(m)[k := v] && S() == Inserted(old(S()), Entry(k, v), idx)
    {
      hide Stands, Slot, Shaped;
      AddedStands(S(), hash, m, Entry(k, v));
      if rehashidx != -1 {
        ht1 := Push(ht1, idx, Entry(k, v));
      } else {
        ht0 := Push(ht0, idx, Entry(k, v));
      }
      m := m[k := v];
    }

    /** dictAdd. */
    method Add(k: K, v: V) returns (ok: bool)
      requires Valid() && S().Used() < LONG_MAX / 2
      modifies this`ht0, this`ht1, this`rehashidx, this`m
      ensures Valid() && (ok <==> k !in old(m))
      ensures m == if ok then old(m)[k := v] else old(m)
      ensures canResize && !old(S()).Rehashing() ==> Roomy(S())
    {
      var second, idx, pos;
      ghost var s1, s2;
      ok, second, idx, pos, s1, s2 := AddRaw(k, v);
    }

    /** dictReplace: add, or store the new value in the entry already there. */
    method Replace(k: K, v: V) returns (isNew: bool, ghost s1: State<K, V>, ghost s2: State<K, V>)
      requires Valid() && S().Used() < LONG_MAX / 2
      modifies this`ht0, this`ht1, this`rehashidx, this`m
      ensures Valid() && (isNew <==> k !in old(m)) && m == old(m)[k := v]
      ensures Stepped(old(S()), s1) && (s2 == s1 || Started(s1, s2))
      ensures SameShape(s2, S()) && S().Used() == s2.Used() + if isNew then 1 else 0
      ensures Inv(s2, hash)
      ensures var t := TableOf(s2, s2.Rehashing());
              && t.buckets != []
              && if isNew then S() == Inserted(s2, Entry(k, v), Slot(hash(k), t)) else ValueSet(s2, S(), k, v)
      ensures Started(s1, s2) <==> NeedsRoom(s1, canResize)
      ensures canResize && !s1.Rehashing() ==> Roomy(S())
    {
      hide Stands, Slot, Shaped, Inv, Stepped, Started;
      var added, second, idx, pos;
      added, second, idx, pos, s1, s2 := AddRaw(k, v);
      isNew := added;
      if !added { Rewrite(k, v, second, idx, pos); }
    }

    /** dictSetVal on the entry of a key. */
    method SetVal(k: K, v: V)
      requires Valid() && k in m
      modifies this`ht0, this`ht1, this`m
      ensures Valid() && m == old(m)[k := v]
    {
      hide Stands;
      Fields(S(), hash, m);
      assert |m| == 0 ==> m == map[];
      var second, idx, pos := Locate(k);
      Rewrite(k, v, second, idx, pos);
    }

    /** Store a value in the entry at position `pos` of bucket `idx`. */
    method Rewrite(k: K, v: V, second: bool, idx: nat, pos: nat)
      requires Valid() && idx < |TableOf(S(), second).buckets| && pos < |TableOf(S(), second).buckets[idx]|
      requires TableOf(S(), second).buckets[idx][pos].key == k
      modifies this`ht0, this`ht1, this`m
      ensures Valid() && m == old(m)[k := v] && S() == WithValue(old(S()), second, idx, pos, v)
      ensures SameShape(old(S()), S()) && S().Used() == old(S()).Used()
    {
      hide Stands;
      RewrittenStands(S(), hash, m, second, idx, pos, v);
      if second {
        var b := ht1.buckets[idx];
        ht1 := ht1.(buckets := ht1.buckets[idx := b[pos := b[pos].(val := v)]]);
      } else {
        var b := ht0.buckets[idx];
        ht0 := ht0.(buckets := ht0.buckets[idx := b[pos := b[pos].(val := v)]]);
      }
      m := m[k := v];
    }

    /** htNeedsResize: there are fewer entries than a tenth of the buckets. */
    predicate NeedsResize(): (r: bool)
      reads this
      ensures r <==> ht0.Size() + ht1.Size() > 4 && 10 * S().Used() < ht0.Size() + ht1.Size()
    {
      Percentage(ht0.used + ht1.used, ht0.Size() + ht1.Size());
      var size := ht0.Size() + ht1.Size();
      size > INITIAL_SIZE && (ht0.used + ht1.used) * 100 / size < MIN_FILL
    }

    /** dictGenericDelete: unlink the entry and hand it back; `s1` is the state after the
        rehash step, the other results where in it the entry was. */
    method Delete(k: K)
      returns (r: Option<Entry<K, V>>, ghost s1: State<K, V>, ghost second: bool, ghost i: nat, ghost j: nat)
      requires Valid()
      modifies this`ht0, this`ht1, this`rehashidx, this`m
      ensures Valid() && m == old(m) - {k}
      ensures r == if k in old(m) then Some(Entry(k, old(m)[k])) else None
      ensures Begun(old(S()), s1)
      ensures if r.Some? then
                var t := TableOf(s1, second);
                && i < |t.buckets| && j < |t.buckets[i]| && t.used > 0 && t.buckets[i][j] == r.value
                && S() == WithTable(s1, second, Unlink(t, i, j))
              else S() == s1
    {
      hide Stands, Shaped, Slot, Stepped, Begun;
      Fields(S(), hash, m);
      BegunNotRehashing(S());
      s1, second, i, j := S(), false, 0, 0;
      if ht0.used == 0 && ht1.used == 0 {
        assert m == map[];
        BegunIdle(S());
        return None, s1, second, i, j;
      }
      if rehashidx != -1 { RehashStep(); }
      s1 := S();
      BegunStepped(old(S()), s1);
      Fields(S(), hash, m);
      var where, idx, pos := Locate(k);
      if pos < 0 {
        assert m - {k} == m;
        return None, s1, second, i, j;
      }
      second, i, j := where, idx, pos;
      var e := UnlinkAt(where, idx, pos);
      r := Some(e);
    }

    /** Take the entry at position `pos` of bucket `idx` out of its chain. */
    method UnlinkAt(second: bool, idx: nat, pos: nat) returns (e: Entry<K, V>)
      requires Valid() && idx < |TableOf(S(), second).buckets| && pos < |TableOf(S(), second).buckets[idx]|
      modifies this`ht0, this`ht1, this`m
      ensures Valid() && old(TableOf(S(), second).used) > 0
      ensures e == old(TableOf(S(), second).buckets[idx][pos]) && m == old(m) - {e.key}
      ensures S() == WithTable(old(S()), second, Unlink(TableOf(old(S()), second), idx, pos))
    {
      hide Stands;
      RemovedStands(S(), hash, m, second, idx, pos);
      if second {
        var b := ht1.buckets[idx];
        e := b[pos];
        ht1 := Table(ht1.buckets[idx := b[..pos] + b[pos + 1..]], ht1.mask, ht1.used - 1);
      } else {
        var b := ht0.buckets[idx];
        e := b[pos];
        ht0 := Table(ht0.buckets[idx := b[..pos] + b[pos + 1..]], ht0.mask, ht0.used - 1);
      }
      m := m - {e.key};
    }

    /** dictScan: the callback gets each bucket's entries in chain order, here collected in
        `out`. */
    method Scan(v: bv64) returns (v': bv64, out: seq<Entry<K, V>>)
      requires Valid()
      ensures ScanStep(S(), hash, v, v', out)
      ensures S().Used() == 0 ==> v' == 0 && out == []
    {
      StandsIsInv(S(), hash, m);
      Fields(S(), hash, m);
      TablesApart(S(), hash);
      hide Stands, Slot, Placed, Count, InTable, Place, Advance, Val, LowMask, InChain, Emitted, Stored, ScanStep,
        Shaped, Apart, SameBucket, Distinct;
      if ht0.used + ht1.used == 0 {
        EmptyScan(S(), hash, m, v);
        return 0, [];
      }
      if rehashidx == -1 {
        out := ht0.buckets[Slot(v, ht0)];
        BucketEmits(ht0, hash, v);
        BucketIs(ht0, hash, v);
        BucketIsStored(ht0, ht1, hash, v);
        v' := Step(v, ht0.mask);
        NoTableEmits(hash, v, v', out);
      } else if ht0.Size() > ht1.Size() {
        v', out := ScanTwo(ht1, ht0, hash, v);
      } else {
        v', out := ScanTwo(ht0, ht1, hash, v);
      }
      ScanDone(S(), hash, v, v', out);
    }
  }

  lemma Percentage(used: nat, size: nat)
    ensures size > 0 ==> (used * 100 / size < MIN_FILL <==> 10 * used < size)
  {
    if size > 0 {
      var q, r := used * 100 / size, used * 100 % size;
      assert used * 100 == q * size + r;
      if q >= 10 { Times(10, q, size); } else { Times(q, 9, size); }
    }
  }

  /** A C int made from an unsigned long. */
  function Int32(n: nat): int
  {
    var low := n % 0x1_0000_0000;
    if low < 0x8000_0000 then low else low - 0x1_0000_0000
  }

  lemma Int32Small(n: nat)
    ensures Int32(n) <= n && (Int32(n) == n <==> n < 0x8000_0000)
  {}

  /** The capacity dictResize asks for. */
  function ResizeGoal(used: nat): nat { if used < INITIAL_SIZE then INITIAL_SIZE else used }

  /** A table with fewer entries than a tenth of its buckets can be replaced by a smaller one. */
  lemma Shrinks(used: nat, size: nat)
    requires size > 4 && 10 * used < size && used < LONG_MAX
    ensures PowerFor(ResizeGoal(used)) < size
  {
    PowerForLeast(ResizeGoal(used));
    hide PowerFor;
  }

  /** A rehash begun (or a first table made) to make room for another entry. */
  ghost predicate Started<K, V>(s: State<K, V>, s': State<K, V>)
  {
    && !s.Rehashing() && s'.iterators == s.iterators && s.Used() < LONG_MAX / 2 && s.ht1.used == 0
    && if s.ht0.Size() == 0 then
         !s'.Rehashing() && s'.ht0.Size() == PowerFor(INITIAL_SIZE) && s'.ht0.used == 0
       else
         && s'.ht0 == s.ht0 && s.ht0.used >= s.ht0.Size()
         && s'.rehashidx == 0 && s'.ht1.Size() == PowerFor(2 * s.ht0.used) && s'.ht1.used == 0
  }

  /** An addition begins by making room: there is no table yet, or the table has as many entries
      as buckets and resizing is allowed, or six times as many. */
  predicate NeedsRoom<K, V>(s: State<K, V>, canResize: bool)
  {
    && !s.Rehashing()
    && if s.ht0.Size() == 0 then true
       else if canResize then s.ht0.used >= s.ht0.Size() else s.ht0.used >= 6 * s.ht0.Size()
  }

  /** The table has no more entries than buckets, or a larger one is being filled. */
  predicate Roomy<K, V>(s: State<K, V>) { s.Rehashing() || s.ht0.used <= s.ht0.Size() }

  lemma NeedsRoomIs<K, V>(s: State<K, V>, canResize: bool)
    ensures NeedsRoom(s, canResize) <==>
            && s.rehashidx == -1
            && (s.ht0.Size() == 0
                || (s.ht0.used >= s.ht0.Size() && (canResize || s.ht0.used / s.ht0.Size() > FORCE_RATIO)))
    ensures s.Rehashing() <==> s.rehashidx != -1
  {
    if s.ht0.Size() > 0 { RatioIs(s.ht0.used, s.ht0.Size()); }
  }

  lemma NoStep<K, V>(s: State<K, V>) ensures !s.Rehashing() ==> Stepped(s, s) {}
  lemma SameUsed<K, V>(s: State<K, V>, s1: State<K, V>) ensures Stepped(s, s1) ==> s1.Used() == s.Used() {}

  /** With resizing allowed there is room for one entry more, or a larger table being filled. */
  lemma RoomMade<K, V>(s1: State<K, V>, s2: State<K, V>, canResize: bool)
    requires (s2 == s1 || Started(s1, s2)) && (Started(s1, s2) <==> NeedsRoom(s1, canResize))
    ensures canResize && !s1.Rehashing() ==> s2.Rehashing() || s2.ht0.used < s2.ht0.Size()
  {
    Quadruple();
    hide PowerFor;
  }

  lemma NotStarted<K, V>(s: State<K, V>)
    ensures !Started(s, s)
  {
    Quadruple();
  }

  lemma StandsFields<K(!new), V>(s: State<K, V>, hash: K -> bv64, m: map<K, V>)
    requires Stands(s, hash, m)
    ensures (s.Rehashing() ==> s.ht0.buckets != []) && (!s.Rehashing() ==> s.ht1.used == 0)
    ensures (s.ht0.Size() == 0 <==> s.ht0.buckets == []) && (s.ht0.Size() == 0 ==> s.ht0.used == 0)
  {
    Fields(s, hash, m);
    hide Stands;
  }

  /** A successful expansion is the start of making room. */
  lemma StartedIs<K, V>(s: State<K, V>, s': State<K, V>, size: nat)
    requires !s.Rehashing() && s.Used() < LONG_MAX / 2 && s.ht1.used == 0 && s'.iterators == s.iterators
    requires PowerFor(size) > 0
    requires if s.ht0.Size() == 0 then !s'.Rehashing() && s'.ht0 == Fresh(PowerFor(size)) && size == INITIAL_SIZE
             else s'.rehashidx == 0 && s'.ht0 == s.ht0 && s'.ht1 == Fresh(PowerFor(size)) && size == 2 * s.ht0.used
                  && s.ht0.used >= s.ht0.Size()
    ensures Started(s, s') && (s'.Rehashing() ==> s'.ht0 == s.ht0) && (!s'.Rehashing() ==> s'.ht0.buckets != [])
  {
    hide PowerFor;
  }

  lemma RatioIs(used: nat, size: nat)
    requires size > 0
    ensures used / size > FORCE_RATIO <==> used >= 6 * size
  {
    var q, r := used / size, used % size;
    assert used == q * size + r;
    if q >= 6 { Times(6, q, size); } else { Times(q, 5, size); }
  }

  lemma Times(a: nat, b: nat, c: nat) requires a <= b ensures a * c <= b * c {}

  lemma Quadruple() ensures PowerFor(INITIAL_SIZE) == 4 {}

  /** What `n` rehash steps do: reach the end, or pass n buckets and no more than 10n empty ones
      besides. */
  ghost predicate Advanced<K, V>(s: State<K, V>, s': State<K, V>, n: nat)
  {
    s.Rehashing() ==>
      if s'.Rehashing() then
        && s'.ht0.Size() == s.ht0.Size() && s'.ht1.Size() == s.ht1.Size()
        && s.rehashidx + n <= s'.rehashidx <= s.rehashidx + 11 * n && (n > 0 ==> s'.rehashidx < s'.ht0.Size())
      else
        s'.ht0.Size() == s.ht1.Size()
  }

  /** The rehash step an operation begins with. */
  ghost predicate Stepped<K, V>(s: State<K, V>, s1: State<K, V>)
  {
    && s1.Used() == s.Used() && s1.iterators == s.iterators
    && if s.iterators > 0 || !s.Rehashing() then s1 == s else Advanced(s, s1, 1)
  }

  /** What an operation does first: a rehash step, unless there is nothing stored. */
  ghost predicate Begun<K, V>(s: State<K, V>, s1: State<K, V>)
  {
    Stepped(s, s1) || (s1 == s && s.Used() == 0)
  }

  lemma BegunIdle<K, V>(s: State<K, V>)
    requires s.Used() == 0
    ensures Begun(s, s)
  {}

  lemma BegunNotRehashing<K, V>(s: State<K, V>)
    ensures !s.Rehashing() ==> Stepped(s, s)
  {}

  lemma BegunStepped<K, V>(s: State<K, V>, s1: State<K, V>)
    ensures Stepped(s, s1) ==> Begun(s, s1)
  {}

  /** The value of a stored key is another one, and that is all. */
  ghost predicate ValueSet<K, V>(s: State<K, V>, s': State<K, V>, k: K, v: V)
  {
    exists second: bool, i: nat, j: nat ::
      && i < |TableOf(s, second).buckets| && j < |TableOf(s, second).buckets[i]|
      && TableOf(s, second).buckets[i][j].key == k && s' == WithValue(s, second, i, j, v)
  }

  /** The tables are as large as they were, and the rehash is where it was. */
  predicate SameShape<K, V>(s: State<K, V>, s': State<K, V>)
  {
    && s'.ht0.Size() == s.ht0.Size() && s'.ht1.Size() == s.ht1.Size()
    && s'.rehashidx == s.rehashidx && s'.iterators == s.iterators
  }

  function Inserted<K, V>(s: State<K, V>, e: Entry<K, V>, i: nat): State<K, V>
    requires i < |TableOf(s, s.Rehashing()).buckets|
  {
    WithTable(s, s.Rehashing(), Push(TableOf(s, s.Rehashing()), i, e))
  }

  function Unlink<K, V>(t: Table<K, V>, i: nat, j: nat): Table<K, V>
    requires i < |t.buckets| && j < |t.buckets[i]| && t.used > 0
  {
    Table(t.buckets[i := t.buckets[i][..j] + t.buckets[i][j + 1..]], t.mask, t.used - 1)
  }
}
