/** The safe iterator of dict.c: which keys are still ahead of it, and that no sequence of
    additions and deletions of the entry just returned makes it miss or repeat a key. */
module DictIter {
  import opened Bits
  import opened DictState
  import opened Options
  import opened DictOps

  /** An iterator's fields. Entries are named by their keys: `entry` is the entry returned
      last, and `next` the one that followed it in its chain at that moment. */
  datatype Iter<K> = Iter(second: bool, index: int, entry: Option<K>, next: Option<K>)

  const START := -1

  function FreshIter<K>(): Iter<K> { Iter(false, START, None, None) }

  /** The chain from the entry with key `n` on. */
  function From<K(==), V>(c: Chain<K, V>, n: K): Chain<K, V>
  {
    if c == [] then [] else if c[0].key == n then c else From(c[1..], n)
  }

  function Current<K(==), V>(s: State<K, V>, it: Iter<K>): Chain<K, V>
  {
    var b := TableOf(s, it.second).buckets;
    if it.entry.Some? && it.next.Some? && 0 <= it.index < |b| then From(b[it.index], it.next.value) else []
  }

  /** The key is stored in a place the iterator has yet to reach. */
  ghost predicate Ahead<K(!new), V>(s: State<K, V>, hash: K -> bv64, it: Iter<K>, k: K)
    requires Inv(s, hash)
  {
    || InChain(Current(s, it), k).Some?
    || (InTable(TableOf(s, it.second), hash, k).Some? && Slot(hash(k), TableOf(s, it.second)) > it.index)
    || (!it.second && InTable(s.ht1, hash, k).Some?)
  }

  /** What holds between calls: the entry to come next, which is not the one returned last,
      is in the current chain. */
  ghost predicate IterInv<K(!new), V>(s: State<K, V>, hash: K -> bv64, it: Iter<K>)
  {
    && Inv(s, hash) && it.index >= START
    && (it.second ==> s.Rehashing())
    && (it.entry.Some? ==>
         && 0 <= it.index < |TableOf(s, it.second).buckets|
         && (it.next.Some? ==> Current(s, it) != [] && it.next != it.entry))
  }

  /** One dictNext: it returns a key that was ahead and no longer is, and no other key changes
      sides; or it returns nothing, and nothing was ahead. */
  ghost predicate Advances<K(!new), V>(s: State<K, V>, hash: K -> bv64, it: Iter<K>, it': Iter<K>,
                                       r: Option<Entry<K, V>>)
    requires Inv(s, hash)
  {
    match r
    case Some(e) =>
      && it'.entry == Some(e.key) && Lookup(s, hash, e.key) == Some(e.val)
      && Ahead(s, hash, it, e.key) && !Ahead(s, hash, it', e.key)
      && forall k :: k != e.key ==> (Ahead(s, hash, it', k) <==> Ahead(s, hash, it, k))
    case None =>
      forall k :: !Ahead(s, hash, it, k) && !Ahead(s, hash, it', k)
  }

  // ----- Chains -----

  lemma {:induction false} FromAt<K, V>(c: Chain<K, V>, j: nat)
    requires j < |c| && Distinct(c)
    ensures From(c, c[j].key) == c[j..]
  {
    if j > 0 {
      assert c[0].key != c[j].key;
      FromAt(c[1..], j - 1);
      assert c[1..][j - 1..] == c[j..];
    }
  }

  lemma {:induction false} FromSuffix<K, V>(c: Chain<K, V>, n: K) returns (j: nat)
    ensures j <= |c| && From(c, n) == c[j..] && (From(c, n) != [] ==> c[j].key == n)
  {
    if c == [] || c[0].key == n {
      j := 0;
      assert c[0..] == c;
    } else {
      j := FromSuffix(c[1..], n);
      assert c[1..][j..] == c[j + 1..];
      j := j + 1;
    }
  }

  /** Unlinking another entry keeps the entry with key `n` in the chain, and keeps every
      other key where it was, before it or from it on. */
  lemma {:induction false} FromUnlinked<K, V>(c: Chain<K, V>, j: nat, n: K, k: K)
    requires j < |c| && Distinct(c) && c[j].key != n && k != c[j].key
    ensures var d := c[..j] + c[j + 1..];
            && InChain(From(d, n), k) == InChain(From(c, n), k)
            && (From(c, n) != [] ==> From(d, n) != [])
  {
    var d := c[..j] + c[j + 1..];
    if j == 0 {
      assert d == c[1..];
    } else {
      assert d[0] == c[0] && d[1..] == c[1..][..j - 1] + c[1..][j..];
      if c[0].key == n {
        Unlinked(c, j, k);
      } else {
        FromUnlinked(c[1..], j - 1, n, k);
      }
    }
  }

  // ----- What the loop body may do between calls -----

  /** Making room for a new key while a safe iterator runs moves no entry. */
  lemma StartKeeps<K(!new), V>(s: State<K, V>, hash: K -> bv64, s2: State<K, V>, it: Iter<K>)
    requires IterInv(s, hash, it) && Inv(s2, hash) && Started(s, s2)
    ensures IterInv(s2, hash, it)
    ensures forall k :: Ahead(s2, hash, it, k) <==> Ahead(s, hash, it, k)
  {
    hide Slot, Shaped, Placed, Count, PowerFor, InChain;
    EmptyTable(s2.ht1, hash);
    if s.ht0.Size() == 0 { EmptyTable(s2.ht0, hash); }
    hide InTable, TableInv;
    assert Current(s2, it) == Current(s, it);
    forall k ensures Ahead(s2, hash, it, k) <==> Ahead(s, hash, it, k) {
      if s.ht0.Size() == 0 { NoneInNoTable(s.ht0, hash, k); }
      NoneInNoTable(s.ht1, hash, k);
    }
  }

  lemma NoneInNoTable<K, V>(t: Table<K, V>, hash: K -> bv64, k: K)
    requires Shaped(t)
    ensures t.buckets == [] ==> InTable(t, hash, k).None?
  {
    hide Shaped;
  }

  /** Pushing a new key on a bucket moves no other key past the iterator. */
  lemma PushKeeps<K(!new), V>(s: State<K, V>, hash: K -> bv64, e: Entry<K, V>, it: Iter<K>)
    requires IterInv(s, hash, it) && Lookup(s, hash, e.key).None?
    requires var t := TableOf(s, s.Rehashing()); Shaped(t) && t.buckets != []
    requires Inv(Inserted(s, e, Slot(hash(e.key), TableOf(s, s.Rehashing()))), hash)
    ensures var s' := Inserted(s, e, Slot(hash(e.key), TableOf(s, s.Rehashing())));
            && IterInv(s', hash, it)
            && forall k :: k != e.key ==> (Ahead(s', hash, it, k) <==> Ahead(s, hash, it, k))
  {
    hide Slot, Shaped, Placed, Count, InChain, LowMask, Val, InTable;
    var t := TableOf(s, s.Rehashing());
    var i := Slot(hash(e.key), t);
    var s' := Inserted(s, e, i);
    assert InTable(t, hash, e.key).None? by { LookupNone(s, hash, e.key); }
    Pushed(t, hash, e);
    SetBucketIs(t, i, [e] + t.buckets[i]);
    assert Push(t, i, e) == SetBucket(t, i, [e] + t.buckets[i]);
    CurrentPushed(s, hash, e, it);
    SameSlotsUnderMask(t, Push(t, i, e));
    hide Push, Inv, TableInv;
    forall k | k != e.key ensures Ahead(s', hash, it, k) <==> Ahead(s, hash, it, k) {
    }
  }

  lemma SameSlotsUnderMask<K, V>(t: Table<K, V>, t': Table<K, V>)
    requires Shaped(t) && Shaped(t') && t.mask == t'.mask && t.buckets != [] && t'.buckets != []
    ensures forall h :: Slot(h, t') == Slot(h, t)
  {
    hide Shaped, Val;
  }

  lemma CurrentPushed<K(!new), V>(s: State<K, V>, hash: K -> bv64, e: Entry<K, V>, it: Iter<K>)
    requires IterInv(s, hash, it) && Lookup(s, hash, e.key).None?
    requires var t := TableOf(s, s.Rehashing()); Shaped(t) && t.buckets != []
    ensures var s' := Inserted(s, e, Slot(hash(e.key), TableOf(s, s.Rehashing())));
            && Current(s', it) == Current(s, it)
            && |TableOf(s', it.second).buckets| == |TableOf(s, it.second).buckets|
  {
    hide Slot, Shaped, Count, InChain, LowMask, Val;
    LookupNone(s, hash, e.key);
    var b := TableOf(s, it.second).buckets;
    if it.entry.Some? && it.next.Some? {
      var c := b[it.index];
      var j := FromSuffix(c, it.next.value);
      EntryIsFound(TableOf(s, it.second), hash, it.index, j);
      assert it.next.value != e.key;
      assert ([e] + c)[1..] == c;
    }
  }

  lemma LookupNone<K(!new), V>(s: State<K, V>, hash: K -> bv64, k: K)
    requires Inv(s, hash) && Lookup(s, hash, k).None?
    ensures InTable(s.ht0, hash, k).None? && InTable(s.ht1, hash, k).None?
  {
    hide Placed, Count, InTable;
  }

  /** Unlinking any entry but the one to come next moves no other key past the iterator. */
  lemma UnlinkKeeps<K(!new), V>(s: State<K, V>, hash: K -> bv64, second: bool, i: nat, j: nat, it: Iter<K>)
    requires IterInv(s, hash, it)
    requires var t := TableOf(s, second); i < |t.buckets| && j < |t.buckets[i]| && t.used > 0
    requires it.next != Some(TableOf(s, second).buckets[i][j].key)
    requires Inv(WithTable(s, second, Unlink(TableOf(s, second), i, j)), hash)
    ensures var s' := WithTable(s, second, Unlink(TableOf(s, second), i, j));
            && IterInv(s', hash, it)
            && forall k :: k != TableOf(s, second).buckets[i][j].key ==>
               (Ahead(s', hash, it, k) <==> Ahead(s, hash, it, k))
  {
    hide Slot, Shaped, Count, InChain, LowMask, Val, InTable;
    var t := TableOf(s, second);
    var b := t.buckets[i];
    var s' := WithTable(s, second, Unlink(t, i, j));
    Removed(t, hash, i, j);
    SetBucketIs(t, i, b[..j] + b[j + 1..]);
    assert Unlink(t, i, j) == SetBucket(t, i, b[..j] + b[j + 1..]);
    SameSlotsUnderMask(t, Unlink(t, i, j));
    forall k | k != b[j].key
      ensures InChain(Current(s', it), k) == InChain(Current(s, it), k)
    {
      if it.entry.Some? && it.next.Some? { FromUnlinked(b, j, it.next.value, k); }
    }
    if it.entry.Some? && it.next.Some? { FromUnlinked(b, j, it.next.value, it.next.value); }
    hide Unlink, Inv, TableInv;
    forall k | k != b[j].key ensures Ahead(s', hash, it, k) <==> Ahead(s, hash, it, k) {
    }
  }

  /** A new value in an entry moves no key. */
  lemma WriteKeeps<K(!new), V>(s: State<K, V>, hash: K -> bv64, second: bool, i: nat, j: nat, v: V, it: Iter<K>)
    requires IterInv(s, hash, it)
    requires i < |TableOf(s, second).buckets| && j < |TableOf(s, second).buckets[i]|
    requires Inv(WithValue(s, second, i, j, v), hash)
    ensures var s' := WithValue(s, second, i, j, v);
            IterInv(s', hash, it) && forall k :: Ahead(s', hash, it, k) <==> Ahead(s, hash, it, k)
  {
    hide Slot, Shaped, Count, InChain, LowMask, Val, InTable;
    var t := TableOf(s, second);
    var b := t.buckets[i];
    var c := b[j := b[j].(val := v)];
    var s' := WithValue(s, second, i, j, v);
    EntryIsFound(t, hash, i, j);
    Rewritten(t, hash, i, j, v);
    SetBucketIs(t, i, c);
    assert TableOf(s', second) == SetBucket(t, i, c);
    SameSlotsUnderMask(t, SetBucket(t, i, c));
    forall k ensures InChain(Current(s', it), k).Some? <==> InChain(Current(s, it), k).Some? {
      if it.entry.Some? && it.next.Some? { FromRewritten(b, j, v, it.next.value, k); }
    }
    if it.entry.Some? && it.next.Some? { FromRewritten(b, j, v, it.next.value, it.next.value); }
    hide SetBucket, WithValue, Inv, TableInv;
    forall k ensures Ahead(s', hash, it, k) <==> Ahead(s, hash, it, k) {
    }
  }

  lemma {:induction false} FromRewritten<K, V>(c: Chain<K, V>, j: nat, v: V, n: K, k: K)
    requires j < |c|
    ensures var d := c[j := c[j].(val := v)];
            && (InChain(From(d, n), k).Some? <==> InChain(From(c, n), k).Some?)
            && (From(d, n) == [] <==> From(c, n) == [])
  {
    var d := c[j := c[j].(val := v)];
    if j == 0 {
      assert d[1..] == c[1..];
    } else {
      assert d[1..] == c[1..][j - 1 := c[1..][j - 1].(val := v)];
      if c[0].key == n {
        SameKeys(c, j, v, k);
      } else {
        FromRewritten(c[1..], j - 1, v, n, k);
      }
    }
  }

  lemma {:induction false} SameKeys<K, V>(c: Chain<K, V>, j: nat, v: V, k: K)
    requires j < |c|
    ensures InChain(c[j := c[j].(val := v)], k).Some? <==> InChain(c, k).Some?
  {
    var d := c[j := c[j].(val := v)];
    if j == 0 {
      assert d[1..] == c[1..];
    } else {
      assert d[1..] == c[1..][j - 1 := c[1..][j - 1].(val := v)];
      SameKeys(c[1..], j - 1, v, k);
    }
  }

  // ----- dictNext -----

  /** The keys ahead of an iterator that is about to return the entry at position `p` of
      bucket `index`: those from that entry on, in later buckets, or in the second table. */
  ghost predicate AheadFrom<K(!new), V>(s: State<K, V>, hash: K -> bv64, second: bool, index: int, p: nat, k: K)
    requires Inv(s, hash) && 0 <= index < |TableOf(s, second).buckets| && p <= |TableOf(s, second).buckets[index]|
  {
    || InChain(TableOf(s, second).buckets[index][p..], k).Some?
    || (InTable(TableOf(s, second), hash, k).Some? && Slot(hash(k), TableOf(s, second)) > index)
    || (!second && InTable(s.ht1, hash, k).Some?)
  }

  /** The iterator after returning the entry at position `p` of bucket `index`. */
  function Returning<K, V>(second: bool, index: int, b: Chain<K, V>, p: nat): Iter<K>
    requires p < |b|
  {
    Iter(second, index, Some(b[p].key), if p + 1 < |b| then Some(b[p + 1].key) else None)
  }

  lemma ReturnAt<K(!new), V>(s: State<K, V>, hash: K -> bv64, second: bool, index: int, p: nat, e: Entry<K, V>)
    requires Inv(s, hash) && (second ==> s.Rehashing())
    requires 0 <= index < |TableOf(s, second).buckets| && p < |TableOf(s, second).buckets[index]|
    requires e == TableOf(s, second).buckets[index][p]
    ensures var it' := Returning(second, index, TableOf(s, second).buckets[index], p);
            && IterInv(s, hash, it') && Lookup(s, hash, e.key) == Some(e.val)
            && AheadFrom(s, hash, second, index, p, e.key) && !Ahead(s, hash, it', e.key)
            && forall k :: k != e.key ==> (Ahead(s, hash, it', k) <==> AheadFrom(s, hash, second, index, p, k))
  {
    hide Slot, Shaped, Count, LowMask, Val;
    var t := TableOf(s, second);
    var b := t.buckets[index];
    var it' := Returning(second, index, b, p);
    EntryIsFound(t, hash, index, p);
    if p + 1 < |b| { FromAt(b, p + 1); }
    assert Current(s, it') == b[p + 1..];
    assert b[p..][0] == b[p] && b[p..][1..] == b[p + 1..];
    hide Current, InTable, Placed;
    if InChain(b[p + 1..], e.key).Some? {
      var j := InChainFinds(b[p + 1..], e.key);
    }
  }

  /** With no entry at hand the keys ahead are those from the next bucket on. */
  lemma AheadOfBucket<K(!new), V>(s: State<K, V>, hash: K -> bv64, second: bool, index: int, next: Option<K>)
    requires Inv(s, hash) && 0 <= index < |TableOf(s, second).buckets|
    ensures forall k :: Ahead(s, hash, Iter(second, index - 1, None, next), k) <==>
            AheadFrom(s, hash, second, index, 0, k)
  {
    hide Slot, Shaped, Count, LowMask, Val, InTable;
    var b := TableOf(s, second).buckets[index];
    assert b[0..] == b;
    forall k ensures Ahead(s, hash, Iter(second, index - 1, None, next), k) <==> AheadFrom(s, hash, second, index, 0, k)
    {
      InBucket(TableOf(s, second), hash, index, k);
    }
  }

  lemma InBucket<K(!new), V>(t: Table<K, V>, hash: K -> bv64, i: int, k: K)
    requires TableInv(t, hash) && 0 <= i < |t.buckets|
    ensures InChain(t.buckets[i], k).Some? <==> InTable(t, hash, k).Some? && Slot(hash(k), t) == i
  {
    hide Slot, Shaped, Count;
    if InChain(t.buckets[i], k).Some? { var j := InChainFinds(t.buckets[i], k); }
  }

  /** An empty bucket is passed without changing what is ahead. */
  lemma PassEmpty<K(!new), V>(s: State<K, V>, hash: K -> bv64, second: bool, index: int, next: Option<K>)
    requires Inv(s, hash) && 0 <= index < |TableOf(s, second).buckets| && TableOf(s, second).buckets[index] == []
    ensures forall k :: Ahead(s, hash, Iter(second, index - 1, None, next), k) <==>
            Ahead(s, hash, Iter(second, index, None, next), k)
  {
    hide Slot, Shaped, Placed, Count, LowMask, Val, InTable;
    forall k ensures Ahead(s, hash, Iter(second, index - 1, None, next), k) <==>
        Ahead(s, hash, Iter(second, index, None, next), k)
    {
      InBucket(TableOf(s, second), hash, index, k);
    }
  }

  /** Past the last bucket of the first table only the second table is ahead, from its start. */
  lemma PassTable<K(!new), V>(s: State<K, V>, hash: K -> bv64, index: int, next: Option<K>)
    requires Inv(s, hash) && index >= |s.ht0.buckets| - 1
    ensures forall k :: Ahead(s, hash, Iter(false, index, None, next), k) <==>
            Ahead(s, hash, Iter(true, -1, None, next), k)
  {
    hide Shaped, Count, LowMask, Val, InChain;
  }

  lemma PastEnd<K(!new), V>(s: State<K, V>, hash: K -> bv64, second: bool, index: int, next: Option<K>)
    requires Inv(s, hash) && index >= |TableOf(s, second).buckets| - 1 && (second || !s.Rehashing())
    ensures forall k :: !Ahead(s, hash, Iter(second, index, None, next), k)
  {
    hide Shaped, Count, LowMask, Val, Placed;
  }

  predicate NotBegun<K>(it: Iter<K>) { it.index == START && !it.second }

  /** The iterator object. */
  class SafeIterator<K(==, !new), V> {
    const d: Dict<K, V>
    var second: bool
    var index: int
    var entry: Option<K>
    var nextEntry: Option<K>

    constructor (d: Dict<K, V>)
      ensures this.d == d && It() == FreshIter()
    {
      this.d := d;
      second, index, entry, nextEntry := false, START, None, None;
    }

    ghost function It(): Iter<K>
      reads this
    {
      Iter(second, index, entry, nextEntry)
    }

    /** One pass of the loop of dictNext with no entry at hand: on to the next bucket. */
    method EnterBucket() returns (r: Option<Entry<K, V>>, atEnd: bool)
      requires d.Valid() && IterInv(d.S(), d.hash, It()) && entry.None?
      modifies this, d`iterators
      ensures d.Valid() && IterInv(d.S(), d.hash, It())
      ensures d.S() == old(d.S()).(iterators := d.iterators)
      ensures d.iterators == old(d.iterators) + if NotBegun(old(It())) then 1 else 0
      ensures !NotBegun(It())
      ensures if r.Some? || atEnd then Advances(d.S(), d.hash, old(It()), It(), r)
              else entry.None? && SameAhead(d.S(), d.hash, old(It()), It())
      ensures old(second) ==> second
      ensures second == old(second) ==> index == old(index) + 1
      ensures r.None? && !atEnd ==> index < |TableOf(d.S(), second).buckets|
    {
      hide Slot, Shaped, LowMask, Val, InTable, InChain, Stands, AheadFrom, Ahead, Current, Inv;
      r, atEnd := None, false;
      ghost var it := It();
      if index == -1 && !second {
        IteratorsKeep(d.S(), d.hash, d.m, It(), d.iterators + 1);
        d.iterators := d.iterators + 1;
      }
      index := index + 1;
      if index >= (if second then d.ht1 else d.ht0).Size() {
        if d.rehashidx != -1 && !second {
          PassTable(d.S(), d.hash, index - 1, nextEntry);
          second := true;
          index := 0;
        } else {
          PastEnd(d.S(), d.hash, second, index - 1, nextEntry);
          PastEnd(d.S(), d.hash, second, index, nextEntry);
          return None, true;
        }
      }
      Fields(d.S(), d.hash, d.m);
      r := TakeBucket();
      atEnd := false;
    }

    /** The bucket the index is at: its first entry, or none. */
    method TakeBucket() returns (r: Option<Entry<K, V>>)
      requires d.Valid() && Inv(d.S(), d.hash) && entry.None? && (second ==> d.S().Rehashing())
      requires 0 <= index < |TableOf(d.S(), second).buckets|
      modifies this`entry, this`nextEntry
      ensures IterInv(d.S(), d.hash, It())
      ensures var it := Iter(second, index - 1, None, old(nextEntry));
              if r.Some? then Advances(d.S(), d.hash, it, It(), r)
              else entry.None? && SameAhead(d.S(), d.hash, it, It())
    {
      hide Slot, Shaped, LowMask, Val, InTable, InChain, Stands, AheadFrom, Ahead, Current, Inv;
      var b := (if second then d.ht1 else d.ht0).buckets[index];
      AheadOfBucket(d.S(), d.hash, second, index, nextEntry);
      if b == [] {
        PassEmpty(d.S(), d.hash, second, index, nextEntry);
        r := None;
      } else {
        ReturnAt(d.S(), d.hash, second, index, 0, b[0]);
        entry, nextEntry := Some(b[0].key), if |b| > 1 then Some(b[1].key) else None;
        r := Some(b[0]);
      }
    }

    /** The other pass: on to the entry saved when the last one was returned. */
    method FollowChain() returns (r: Option<Entry<K, V>>)
      requires d.Valid() && IterInv(d.S(), d.hash, It()) && entry.Some?
      modifies this
      ensures IterInv(d.S(), d.hash, It()) && !NotBegun(It()) && second == old(second) && index == old(index)
      ensures if r.Some? then Advances(d.S(), d.hash, old(It()), It(), r)
              else entry.None? && SameAhead(d.S(), d.hash, old(It()), It())
    {
      hide Slot, Shaped, LowMask, Val, InTable, InChain, Stands, AheadFrom, Ahead;
      var b := (if second then d.ht1 else d.ht0).buckets[index];
      if nextEntry.Some? {
        ghost var p := FromNext(d.S(), d.hash, It());
        var rest := From(b, nextEntry.value);
        assert rest == b[p..] && rest[0] == b[p] && (|rest| > 1 ==> rest[1] == b[p + 1]);
        ReturnAt(d.S(), d.hash, second, index, p, b[p]);
        entry, nextEntry := nextEntry, if |rest| > 1 then Some(rest[1].key) else None;
        return Some(rest[0]);
      } else {
        NothingLeft(d.S(), d.hash, It());
        entry := None;
        return None;
      }
    }

    /** dictNext: the next entry, or none at the end; the first call registers the iterator. */
    method Next() returns (r: Option<Entry<K, V>>)
      requires d.Valid() && IterInv(d.S(), d.hash, It())
      modifies this, d`iterators
      ensures d.Valid() && IterInv(d.S(), d.hash, It())
      ensures d.S() == old(d.S()).(iterators := d.iterators)
      ensures d.iterators == old(d.iterators) + if NotBegun(old(It())) then 1 else 0
      ensures Advances(d.S(), d.hash, old(It()), It(), r)
    {
      hide Stands, Ahead, IterInv, Inv;
      ghost var it0 := It();
      IterIsInv(d.S(), d.hash, It());
      while true
        invariant d.Valid() && IterInv(d.S(), d.hash, It()) && Inv(d.S(), d.hash)
        invariant d.S() == old(d.S()).(iterators := d.iterators)
        invariant d.iterators == old(d.iterators) + if NotBegun(it0) && !NotBegun(It()) then 1 else 0
        invariant NotBegun(It()) ==> It() == it0
        invariant SameAhead(d.S(), d.hash, it0, It())
        decreases if second then 0 else 1, |TableOf(d.S(), second).buckets| - index, if entry.Some? then 1 else 0
      {
        if entry.None? {
          var atEnd;
          r, atEnd := EnterBucket();
          IterIsInv(d.S(), d.hash, It());
          if r.Some? || atEnd { return; }
        } else {
          r := FollowChain();
          if r.Some? { return; }
        }
      }
    }
  }

  ghost predicate SameAhead<K(!new), V>(s: State<K, V>, hash: K -> bv64, it: Iter<K>, it': Iter<K>)
    requires Inv(s, hash)
  {
    forall k :: Ahead(s, hash, it', k) <==> Ahead(s, hash, it, k)
  }

  lemma IterIsInv<K(!new), V>(s: State<K, V>, hash: K -> bv64, it: Iter<K>)
    requires IterInv(s, hash, it)
    ensures Inv(s, hash) && it.index >= START
    ensures it.entry.Some? ==> 0 <= it.index < |TableOf(s, it.second).buckets|
  {
    hide Inv, Ahead;
  }

  lemma IteratorsKeep<K(!new), V>(s: State<K, V>, hash: K -> bv64, m: map<K, V>, it: Iter<K>, n: nat)
    requires Stands(s, hash, m) && IterInv(s, hash, it)
    ensures var s' := s.(iterators := n);
            && Stands(s', hash, m) && IterInv(s', hash, it)
            && forall k :: Ahead(s', hash, it, k) <==> Ahead(s, hash, it, k)
  {
    hide Slot, Shaped, Placed, Count, InTable;
    assert forall k :: Lookup(s.(iterators := n), hash, k) == Lookup(s, hash, k);
  }

  /** The entry to come next, by its position in the current bucket. */
  lemma FromNext<K(!new), V>(s: State<K, V>, hash: K -> bv64, it: Iter<K>) returns (p: nat)
    requires IterInv(s, hash, it) && it.entry.Some? && it.next.Some?
    ensures var b := TableOf(s, it.second).buckets[it.index];
            && p < |b| && b[p].key == it.next.value && From(b, it.next.value) == b[p..]
    ensures forall k :: Ahead(s, hash, it, k) <==> AheadFrom(s, hash, it.second, it.index, p, k)
  {
    hide Slot, Shaped, Placed, Count, InTable, InChain;
    p := FromSuffix(TableOf(s, it.second).buckets[it.index], it.next.value);
  }

  lemma NothingLeft<K(!new), V>(s: State<K, V>, hash: K -> bv64, it: Iter<K>)
    requires IterInv(s, hash, it) && it.next.None?
    ensures forall k :: Ahead(s, hash, it, k) <==> Ahead(s, hash, it.(entry := None), k)
  {
    hide Slot, Shaped, Placed, Count, InTable, InChain;
  }

  // ----- Whole iterations -----

  /** What happens to the dictionary and the iterator, one event at a time: a call of dictNext
      that returns an entry; the insertion of a new entry, after making room gave state `room`;
      the unlinking of entry `j` of bucket `i` of one table; a lookup or the attempt to add a key
      that is there, which may have made room; a new value for entry `j` of bucket `i`. */
  datatype Event<K, V> =
    | Returned(e: Entry<K, V>)
    | Added(e: Entry<K, V>, room: State<K, V>)
    | Deleted(key: K, second: bool, i: nat, j: nat)
    | Visited(room: State<K, V>)
    | Written(second: bool, i: nat, j: nat, val: V)

  datatype Config<K, V> = Config(s: State<K, V>, it: Iter<K>)

  ghost predicate IterEvent<K(!new), V>(c: Config<K, V>, hash: K -> bv64, ev: Event<K, V>, c': Config<K, V>)
  {
    && IterInv(c.s, hash, c.it) && Inv(c'.s, hash)
    && match ev
       case Returned(e) =>
         && c'.s == c.s.(iterators := c'.s.iterators) && IterInv(c'.s, hash, c'.it)
         && Advances(c'.s, hash, c.it, c'.it, Some(e))
       case Added(e, room) =>
         && c'.it == c.it && Lookup(c.s, hash, e.key).None?
         && (room == c.s || Started(c.s, room)) && Inv(room, hash)
         && var t := TableOf(room, room.Rehashing());
            t.buckets != [] && c'.s == Inserted(room, e, Slot(hash(e.key), t))
       case Deleted(k, second, i, j) =>
         var t := TableOf(c.s, second);
         && c'.it == c.it && c.it.next != Some(k)
         && i < |t.buckets| && j < |t.buckets[i]| && t.used > 0 && t.buckets[i][j].key == k
         && c'.s == WithTable(c.s, second, Unlink(t, i, j))
       case Visited(room) =>
         c'.it == c.it && c'.s == room && (room == c.s || Started(c.s, room))
       case Written(second, i, j, v) =>
         && c'.it == c.it && i < |TableOf(c.s, second).buckets| && j < |TableOf(c.s, second).buckets[i]|
         && c'.s == WithValue(c.s, second, i, j, v)
  }

  /** What AddRaw, Delete, Find and Replace promise while a safe iterator runs are such events. */
  lemma AddIsEvent<K(!new), V>(s: State<K, V>, hash: K -> bv64, s1: State<K, V>, s2: State<K, V>, e: Entry<K, V>,
                               it: Iter<K>)
    requires IterInv(s, hash, it) && s.iterators > 0 && Lookup(s, hash, e.key).None?
    requires Stepped(s, s1) && (s2 == s1 || Started(s1, s2)) && Inv(s2, hash)
    requires TableOf(s2, s2.Rehashing()).buckets != []
    requires Inv(Inserted(s2, e, Slot(hash(e.key), TableOf(s2, s2.Rehashing()))), hash)
    ensures IterEvent(Config(s, it), hash, Added(e, s2),
                      Config(Inserted(s2, e, Slot(hash(e.key), TableOf(s2, s2.Rehashing()))), it))
  {
    hide Slot, Placed, Count, LowMask, Val, InTable, InChain, Ahead, Current, PowerFor, Shaped;
  }

  lemma DeleteIsEvent<K(!new), V>(s: State<K, V>, hash: K -> bv64, s1: State<K, V>, second: bool, i: nat, j: nat,
                                  it: Iter<K>)
    requires IterInv(s, hash, it) && s.iterators > 0 && Stepped(s, s1)
    requires var t := TableOf(s1, second); i < |t.buckets| && j < |t.buckets[i]| && t.used > 0
    requires it.next != Some(TableOf(s1, second).buckets[i][j].key)
    requires Inv(WithTable(s1, second, Unlink(TableOf(s1, second), i, j)), hash)
    ensures IterEvent(Config(s, it), hash, Deleted(TableOf(s1, second).buckets[i][j].key, second, i, j),
                      Config(WithTable(s1, second, Unlink(TableOf(s1, second), i, j)), it))
  {
    hide Slot, Placed, Count, LowMask, Val, InTable, InChain, Ahead, Current, PowerFor, Shaped;
  }

  lemma VisitIsEvent<K(!new), V>(s: State<K, V>, hash: K -> bv64, s1: State<K, V>, s2: State<K, V>, it: Iter<K>)
    requires IterInv(s, hash, it) && s.iterators > 0 && Begun(s, s1)
    requires (s2 == s1 || Started(s1, s2)) && Inv(s2, hash)
    ensures IterEvent(Config(s, it), hash, Visited(s2), Config(s2, it))
  {
    hide Slot, Placed, Count, LowMask, Val, InTable, InChain, Ahead, Current, PowerFor, Shaped, Advanced;
  }

  lemma WriteIsEvent<K(!new), V>(s: State<K, V>, hash: K -> bv64, s': State<K, V>, k: K, v: V, it: Iter<K>)
    returns (ev: Event<K, V>)
    requires IterInv(s, hash, it) && ValueSet(s, s', k, v) && Inv(s', hash)
    ensures ev.Written? && IterEvent(Config(s, it), hash, ev, Config(s', it))
  {
    hide Slot, Placed, Count, LowMask, Val, InTable, InChain, Ahead, Current, Shaped;
    var second, i: nat, j: nat :|
      && i < |TableOf(s, second).buckets| && j < |TableOf(s, second).buckets[i]|
      && TableOf(s, second).buckets[i][j].key == k && s' == WithValue(s, second, i, j, v);
    ev := Written(second, i, j, v);
  }

  /** A key the iterator has ahead of it is stored. */
  lemma AheadIsStored<K(!new), V>(s: State<K, V>, hash: K -> bv64, it: Iter<K>, k: K)
    requires Inv(s, hash) && Ahead(s, hash, it, k)
    ensures Lookup(s, hash, k).Some?
  {
    hide Slot, Shaped, Count, LowMask, Val, InTable;
    if InChain(Current(s, it), k).Some? {
      var c := TableOf(s, it.second).buckets[it.index];
      var p := FromSuffix(c, it.next.value);
      var q := InChainFinds(c[p..], k);
      EntryIsFound(TableOf(s, it.second), hash, it.index, p + q);
    }
  }

  lemma FreshAhead<K(!new), V>(s: State<K, V>, hash: K -> bv64, k: K)
    requires Inv(s, hash)
    ensures Ahead(s, hash, FreshIter(), k) <==> Lookup(s, hash, k).Some?
  {
    hide Shaped, Placed, Count, LowMask, Val;
  }

  lemma AheadIterators<K(!new), V>(s: State<K, V>, hash: K -> bv64, it: Iter<K>, k: K, n: nat)
    requires Inv(s, hash) && Inv(s.(iterators := n), hash)
    ensures Ahead(s.(iterators := n), hash, it, k) <==> Ahead(s, hash, it, k)
  {
    hide Shaped, Placed, Count, LowMask, Val, InTable, InChain, Slot;
  }

  lemma TableKeepsShape<K(!new), V>(s: State<K, V>, hash: K -> bv64)
    requires Inv(s, hash)
    ensures Shaped(s.ht0) && Shaped(s.ht1)
  {
    hide Shaped, Placed, Count, InTable;
  }

  /** One event, for one key: only its own events move it past the iterator. */
  lemma EventMoves<K(!new), V>(c: Config<K, V>, hash: K -> bv64, ev: Event<K, V>, c': Config<K, V>, k: K)
    requires IterEvent(c, hash, ev, c')
    ensures IterInv(c'.s, hash, c'.it)
    ensures var a, a' := Ahead(c.s, hash, c.it, k), Ahead(c'.s, hash, c'.it, k);
            match ev
            case Returned(e) => if k == e.key then a && !a' else a' == a
            case Added(e, _) => if k == e.key then !a else a' == a
            case Deleted(x, _, _, _) => if k == x then !a' else a' == a
            case Visited(_) => a' == a
            case Written(_, _, _, _) => a' == a
  {
    hide Slot, Shaped, Placed, Count, LowMask, Val, InTable, InChain, Ahead, Current;
    match ev
    case Returned(e) =>
      AheadIterators(c.s, hash, c.it, k, c'.s.iterators);
    case Added(e, room) =>
      TableKeepsShape(room, hash);
      if Ahead(c.s, hash, c.it, e.key) { AheadIsStored(c.s, hash, c.it, e.key); }
      if room != c.s {
        StartKeeps(c.s, hash, room, c.it);
        StartKeepsLookup(c.s, hash, room, e.key);
      }
      PushKeeps(room, hash, e, c.it);
    case Deleted(x, second, i, j) =>
      UnlinkKeeps(c.s, hash, second, i, j, c.it);
      if Ahead(c'.s, hash, c.it, x) {
        AheadIsStored(c'.s, hash, c.it, x);
        UnlinkedIsGone(c.s, hash, second, i, j);
      }
    case Visited(room) =>
      if room != c.s { StartKeeps(c.s, hash, room, c.it); }
    case Written(second, i, j, v) =>
      WriteKeeps(c.s, hash, second, i, j, v, c.it);
  }

  lemma StartKeepsLookup<K(!new), V>(s: State<K, V>, hash: K -> bv64, s2: State<K, V>, k: K)
    requires Inv(s, hash) && Inv(s2, hash) && Started(s, s2) && Lookup(s, hash, k).None?
    ensures Lookup(s2, hash, k).None?
  {
    hide Slot, Shaped, Placed, Count, PowerFor, InChain;
    EmptyTable(s2.ht1, hash);
    if s.ht0.Size() == 0 { EmptyTable(s2.ht0, hash); }
    hide InTable, TableInv;
  }

  lemma UnlinkedIsGone<K(!new), V>(s: State<K, V>, hash: K -> bv64, second: bool, i: nat, j: nat)
    requires Inv(s, hash)
    requires var t := TableOf(s, second); i < |t.buckets| && j < |t.buckets[i]| && t.used > 0
    requires Inv(WithTable(s, second, Unlink(TableOf(s, second), i, j)), hash)
    ensures Lookup(WithTable(s, second, Unlink(TableOf(s, second), i, j)), hash,
                   TableOf(s, second).buckets[i][j].key).None?
  {
    hide Slot, Shaped, Count, InChain, LowMask, Val, InTable, Placed;
    var t := TableOf(s, second);
    var b := t.buckets[i];
    EntryIsFound(t, hash, i, j);
    Removed(t, hash, i, j);
    SetBucketIs(t, i, b[..j] + b[j + 1..]);
    assert Unlink(t, i, j) == SetBucket(t, i, b[..j] + b[j + 1..]);
  }

  /** A run of events from a new iterator on. */
  ghost predicate IterRun<K(!new), V>(cs: seq<Config<K, V>>, hash: K -> bv64, evs: seq<Event<K, V>>)
  {
    && |cs| == |evs| + 1 && cs[0].it == FreshIter() && Inv(cs[0].s, hash)
    && forall i :: 0 <= i < |evs| ==> IterEvent(cs[i], hash, evs[i], cs[i + 1])
  }

  function Returns<K(==), V>(evs: seq<Event<K, V>>, k: K): nat
  {
    if evs == [] then 0
    else Returns(evs[..|evs| - 1], k) + if evs[|evs| - 1].Returned? && evs[|evs| - 1].e.key == k then 1 else 0
  }

  function Adds<K(==), V>(evs: seq<Event<K, V>>, k: K): nat
  {
    if evs == [] then 0
    else Adds(evs[..|evs| - 1], k) + if evs[|evs| - 1].Added? && evs[|evs| - 1].e.key == k then 1 else 0
  }

  /** Where a key has been returned, and where it has been added. */
  ghost function ReturnedAt<K, V>(evs: seq<Event<K, V>>, k: K): set<int>
  {
    set i | 0 <= i < |evs| && evs[i].Returned? && evs[i].e.key == k
  }

  ghost function AddedAt<K, V>(evs: seq<Event<K, V>>, k: K): set<int>
  {
    set i | 0 <= i < |evs| && evs[i].Added? && evs[i].e.key == k
  }

  lemma PositionsGrow<K, V>(evs: seq<Event<K, V>>, k: K)
    requires evs != []
    ensures var n := |evs| - 1;
            && ReturnedAt(evs, k) == ReturnedAt(evs[..n], k)
                                     + (if evs[n].Returned? && evs[n].e.key == k then {n} else {})
            && AddedAt(evs, k) == AddedAt(evs[..n], k) + (if evs[n].Added? && evs[n].e.key == k then {n} else {})
            && n !in ReturnedAt(evs[..n], k) && n !in AddedAt(evs[..n], k)
  {
  }

  /** Both counts are those of the events they name. */
  lemma {:induction false} EventsCounted<K, V>(evs: seq<Event<K, V>>, k: K)
    ensures Returns(evs, k) == |ReturnedAt(evs, k)|
    ensures Adds(evs, k) == |AddedAt(evs, k)|
    decreases |evs|
  {
    if evs != [] {
      EventsCounted(evs[..|evs| - 1], k);
      PositionsGrow(evs, k);
      hide ReturnedAt, AddedAt;
    }
  }

  /** The key is deleted at some event before it has been returned. */
  ghost predicate LostEarly<K(!new), V>(evs: seq<Event<K, V>>, k: K)
  {
    exists i :: 0 <= i < |evs| && evs[i].Deleted? && evs[i].key == k && Returns(evs[..i], k) == 0
  }

  /** Along a run, a key has been returned at most as often as it has been there to return,
      less once if it is still ahead; and one that was there at the start has been returned,
      is still ahead, or was deleted first. */
  lemma {:induction false} RunCounts<K(!new), V>(cs: seq<Config<K, V>>, hash: K -> bv64, evs: seq<Event<K, V>>, k: K)
    requires IterRun(cs, hash, evs)
    ensures var n := |evs|;
            && Inv(cs[n].s, hash)
            && Returns(evs, k) + (if Ahead(cs[n].s, hash, cs[n].it, k) then 1 else 0)
               <= Adds(evs, k) + (if Lookup(cs[0].s, hash, k).Some? then 1 else 0)
            && (Lookup(cs[0].s, hash, k).Some? ==>
                 Returns(evs, k) > 0 || Ahead(cs[n].s, hash, cs[n].it, k) || LostEarly(evs, k))
    decreases |evs|
  {
    var n := |evs|;
    hide Ahead, Lookup, Inv;
    if n == 0 {
      FreshAhead(cs[0].s, hash, k);
    } else {
      var before := evs[..n - 1];
      assert IterRun(cs[..n], hash, before);
      RunCounts(cs[..n], hash, before, k);
      EventMoves(cs[n - 1], hash, evs[n - 1], cs[n], k);
      LostStays(evs, k);
      hide LostEarly, IterEvent;
    }
  }

  lemma LostStays<K(!new), V>(evs: seq<Event<K, V>>, k: K)
    requires |evs| > 0
    ensures LostEarly(evs[..|evs| - 1], k) ==> LostEarly(evs, k)
    ensures evs[|evs| - 1].Deleted? && evs[|evs| - 1].key == k && Returns(evs[..|evs| - 1], k) == 0 ==>
            LostEarly(evs, k)
  {
    hide Returns;
    var before := evs[..|evs| - 1];
    if LostEarly(before, k) {
      var i :| 0 <= i < |before| && before[i].Deleted? && before[i].key == k && Returns(before[..i], k) == 0;
      assert before[..i] == evs[..i];
      assert evs[i].Deleted? && evs[i].key == k && Returns(evs[..i], k) == 0;
    }
  }

  /** Safe iteration: when dictNext has come back with nothing, a key that was stored at the
      start and not deleted before its turn has been returned; a key never added while
      iterating has been returned at most once; and in general a key has been returned no more
      often than it was stored at the start or added. */
  lemma IterationComplete<K(!new), V>(cs: seq<Config<K, V>>, hash: K -> bv64, evs: seq<Event<K, V>>, last: Config<K, V>,
                                      k: K)
    requires IterRun(cs, hash, evs)
    requires var c := cs[|evs|];
             Inv(last.s, hash) && last.s == c.s.(iterators := last.s.iterators)
               && Advances(last.s, hash, c.it, last.it, None)
    ensures Lookup(cs[0].s, hash, k).Some? && !LostEarly(evs, k) ==> Returns(evs, k) >= 1
    ensures Lookup(cs[0].s, hash, k).Some? && !LostEarly(evs, k) && Adds(evs, k) == 0 ==> Returns(evs, k) == 1
    ensures Returns(evs, k) <= Adds(evs, k) + (if Lookup(cs[0].s, hash, k).Some? then 1 else 0)
  {
    RunCounts(cs, hash, evs, k);
    AheadIterators(cs[|evs|].s, hash, cs[|evs|].it, k, last.s.iterators);
    hide Ahead, Lookup, Inv, LostEarly;
  }
}
