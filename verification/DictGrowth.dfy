/** Growth by incremental rehashing finishes in time: over any run of operations without safe
    iterators, before the new table is full. */
module DictGrowth {
  import opened DictState
  import opened DictOps

  /** One operation: state before, after its rehash step, after making room, and at the end. */
  datatype Op<K, V> = Op(s: State<K, V>, s1: State<K, V>, s2: State<K, V>, s': State<K, V>)

  /** It adds or removes at most one entry; one that makes room removes none. */
  ghost predicate Operation<K(!new), V>(op: Op<K, V>)
  {
    && op.s.iterators == 0
    && Begun(op.s, op.s1) && (op.s2 == op.s1 || Started(op.s1, op.s2))
    && SameShape(op.s2, op.s')
    && op.s2.Used() - 1 <= op.s'.Used() <= op.s2.Used() + 1
    && (op.s2 != op.s1 ==> op.s'.Used() >= op.s2.Used())
  }

  /** Lookup, insertion, replacement and deletion are such operations, in the terms Find, AddRaw,
      Replace and Delete state. */
  lemma FindIsOperation<K(!new), V>(s: State<K, V>, s1: State<K, V>)
    requires s.iterators == 0 && Begun(s, s1)
    ensures Operation(Op(s, s1, s1, s1))
  {
    hide Begun;
  }

  lemma AddIsOperation<K(!new), V>(s: State<K, V>, s1: State<K, V>, s2: State<K, V>, e: Entry<K, V>, i: nat)
    requires s.iterators == 0 && Stepped(s, s1) && (s2 == s1 || Started(s1, s2))
    requires i < |TableOf(s2, s2.Rehashing()).buckets|
    ensures Operation(Op(s, s1, s2, Inserted(s2, e, i))) && Operation(Op(s, s1, s2, s2))
  {
    hide Stepped, Started;
  }

  lemma ReplaceIsOperation<K(!new), V>(s: State<K, V>, s1: State<K, V>, s2: State<K, V>, s': State<K, V>, isNew: bool)
    requires s.iterators == 0 && Stepped(s, s1) && (s2 == s1 || Started(s1, s2))
    requires SameShape(s2, s') && s'.Used() == s2.Used() + if isNew then 1 else 0
    ensures Operation(Op(s, s1, s2, s'))
  {
    hide Stepped, Started, SameShape;
  }

  lemma DeleteIsOperation<K(!new), V>(s: State<K, V>, s1: State<K, V>, second: bool, i: nat, j: nat)
    requires s.iterators == 0 && Begun(s, s1)
    ensures Operation(Op(s, s1, s1, s1))
    ensures var t := TableOf(s1, second);
            i < |t.buckets| && j < |t.buckets[i]| && t.used > 0 ==>
              Operation(Op(s, s1, s1, WithTable(s1, second, Unlink(t, i, j))))
  {
    hide Begun;
  }

  ghost predicate OpRun<K(!new), V>(run: seq<Op<K, V>>)
  {
    && (forall i :: 0 <= i < |run| ==> Operation(run[i]))
    && (forall i :: 0 < i < |run| ==> run[i].s == run[i - 1].s')
  }

  /** The first operation of the run starts a rehash to make room. */
  ghost predicate StartsRehash<K(!new), V>(run: seq<Op<K, V>>)
  {
    |run| > 0 && Started(run[0].s1, run[0].s2) && run[0].s2.Rehashing()
  }

  /** The rehash of the first operation is still going after operation `n`'s rehash step. */
  ghost predicate StillGoing<K(!new), V>(run: seq<Op<K, V>>, n: nat)
    requires n < |run|
  {
    forall i :: 0 < i <= n ==> run[i].s1.Rehashing()
  }

  /** While the rehash goes on, each operation passes a bucket and adds or removes at most one
      entry; so there is always one left, and no operation goes without its rehash step. */
  lemma {:induction false} RehashAdvances<K(!new), V>(run: seq<Op<K, V>>, n: nat)
    requires OpRun(run) && StartsRehash(run) && n < |run| && StillGoing(run, n)
    ensures var op := run[n];
            && op.s'.Rehashing() && op.s'.iterators == 0 && n <= op.s'.rehashidx
            && (n > 0 ==> n < run[0].s1.ht0.Size())
            && op.s'.ht0.Size() == run[0].s1.ht0.Size() && op.s'.ht1.Size() == run[0].s2.ht1.Size()
            && run[0].s1.ht0.used - n <= op.s'.Used() <= run[0].s1.ht0.used + n + 1
            && run[0].s1.ht0.Size() <= run[0].s1.ht0.used
  {
    hide PowerFor;
    assert Operation(run[n]);
    if n > 0 {
      RehashAdvances(run, n - 1);
      assert run[n].s == run[n - 1].s';
      assert run[n].s1.Rehashing();
      assert run[n].s.Used() > 0;
    }
  }

  /** A rehash started to make room is over within as many further operations as the old table
      has buckets, and until then the entries, the new ones included, fit the new table. */
  lemma GrowthFinishes<K(!new), V>(run: seq<Op<K, V>>)
    requires OpRun(run) && StartsRehash(run)
    ensures var buckets := run[0].s1.ht0.Size();
            |run| > buckets ==> exists i :: 0 < i <= buckets && !run[i].s1.Rehashing()
    ensures forall n :: 0 <= n < |run| && StillGoing(run, n) ==> run[n].s'.Used() <= run[0].s2.ht1.Size()
  {
    var buckets := run[0].s1.ht0.Size();
    var used := run[0].s1.ht0.used;
    assert PowerFor(2 * used) >= 2 * used;
    forall n | 0 <= n < |run| && StillGoing(run, n) ensures run[n].s'.Used() <= run[0].s2.ht1.Size() {
      RehashAdvances(run, n);
    }
    if |run| > buckets && forall i :: 0 < i <= buckets ==> run[i].s1.Rehashing() {
      assert StillGoing(run, buckets);
      RehashAdvances(run, buckets);
    }
  }
}
