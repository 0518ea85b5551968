/** A run of Adds on the chaining table, as the repository's test drives
    it: every key added to a fresh table reads back its value. */
module ChainingScenario {
  import opened Hashing
  import opened ChainingSpec

  /** Add of e to the buckets and count t: the new buckets, and the count
      one higher when the Add succeeds. */
  function AddOne<K(==), V>(t: (Buckets<K, V>, nat), hash: K -> int, e: Entry<K, V>): (r: (Buckets<K, V>, nat))
    requires |t.0| > 0
    ensures |r.0| >= |t.0|
  {
    var next := AddSpec(t.0, t.1, hash, e);
    (next.0, if next.1 == Done then t.1 + 1 else t.1)
  }

  /** The buckets and the count after Add of each entry of es in turn,
      from the buckets bs holding count entries. */
  function AddAll<K(==), V>(bs: Buckets<K, V>, count: nat, hash: K -> int, es: seq<Entry<K, V>>)
    : (r: (Buckets<K, V>, nat))
    requires |bs| > 0
    ensures |r.0| >= |bs|
    decreases |es|
  {
    if es == [] then (bs, count)
    else AddOne(AddAll(bs, count, hash, es[..|es| - 1]), hash, es[|es| - 1])
  }

  /** Every entry of es is what the lookup of its key yields. */
  ghost predicate ReadsBack<K, V>(bs: Buckets<K, V>, hash: K -> int, es: seq<Entry<K, V>>) {
    |bs| > 0 && forall i :: 0 <= i < |es| ==> Lookup(bs, hash, es[i].key) == Some(es[i].value)
  }

  /** Every key outside ks reads the same in bs' as in bs. */
  ghost predicate SameOutside<K(!new), V>(bs': Buckets<K, V>, bs: Buckets<K, V>, hash: K -> int, ks: seq<K>) {
    |bs'| > 0 && |bs| > 0 && forall k :: k !in ks ==> Lookup(bs', hash, k) == Lookup(bs, hash, k)
  }

  /** One Add of the last entry of es, whose key is new: it succeeds, one
      entry more, the entries added before still read back, and so does
      the new one. */
  lemma AddStep<K(!new), V>(t: (Buckets<K, V>, nat), hash: K -> int, es: seq<Entry<K, V>>)
    requires es != [] && Inv(t.0, hash) && t.1 == |Flatten(t.0)| && ReadsBack(t.0, hash, es[..|es| - 1])
    requires Lookup(t.0, hash, es[|es| - 1].key).None?
    ensures var r := AddOne(t, hash, es[|es| - 1]);
            && Inv(r.0, hash)
            && r.1 == |Flatten(r.0)| == t.1 + 1
            && ReadsBack(r.0, hash, es)
            && SameOutside(r.0, t.0, hash, [es[|es| - 1].key])
  {
    var (b, c) := t;
    var e := es[|es| - 1];
    var init := es[..|es| - 1];
    AddCorrect(b, c, hash, e);
    var b' := AddSpec(b, c, hash, e).0;
    forall i | 0 <= i < |es|
      ensures Lookup(b', hash, es[i].key) == Some(es[i].value)
    {
      if i < |init| {
        assert es[i] == init[i];
        assert Lookup(b, hash, init[i].key) == Some(init[i].value);
        AddKeepsOthers(b, c, hash, e, init[i].key);
      }
    }
    forall k | k !in [e.key]
      ensures Lookup(b', hash, k) == Lookup(b, hash, k)
    {
      AddKeepsOthers(b, c, hash, e, k);
    }
  }

  /** What AddAll of es on bs, holding count entries, delivers. */
  ghost predicate AddedAll<K(!new), V>(bs: Buckets<K, V>, count: nat, hash: K -> int, es: seq<Entry<K, V>>,
                                        r: (Buckets<K, V>, nat)) {
    && Inv(r.0, hash)
    && r.1 == |Flatten(r.0)| == count + |es|
    && ReadsBack(r.0, hash, es)
    && SameOutside(r.0, bs, hash, KeysOf(es))
  }

  /** The induction step of AddAllReadsBack: what holds after all but the
      last entry holds after the last one too. */
  lemma AddAllExtend<K(!new), V>(bs: Buckets<K, V>, count: nat, hash: K -> int, es: seq<Entry<K, V>>)
    requires Inv(bs, hash) && es != [] && KeysDistinct(es)
    requires forall i :: 0 <= i < |es| ==> Lookup(bs, hash, es[i].key).None?
    requires AddedAll(bs, count, hash, es[..|es| - 1], AddAll(bs, count, hash, es[..|es| - 1]))
    ensures AddedAll(bs, count, hash, es, AddAll(bs, count, hash, es))
  {
    var init := es[..|es| - 1];
    var e := es[|es| - 1];
    var prev := AddAll(bs, count, hash, init);
    assert e.key !in KeysOf(init);
    AddStep(prev, hash, es);
    var next := AddOne(prev, hash, e);
    forall k | k !in KeysOf(es)
      ensures Lookup(next.0, hash, k) == Lookup(bs, hash, k)
    {
      assert k !in KeysOf(init) && k !in [e.key];
    }
  }

  /** Adding entries with distinct keys, none already present, succeeds for
      each: the count is the number of entries and grows by |es|, every
      added key reads back its value and every other key reads as before. */
  lemma {:induction false} AddAllReadsBack<K(!new), V>(bs: Buckets<K, V>, count: nat, hash: K -> int, es: seq<Entry<K, V>>)
    requires Inv(bs, hash) && count == |Flatten(bs)|
    requires KeysDistinct(es)
    requires forall i :: 0 <= i < |es| ==> Lookup(bs, hash, es[i].key).None?
    ensures AddedAll(bs, count, hash, es, AddAll(bs, count, hash, es))
    decreases |es|
  {
    if es == [] {
      assert ReadsBack(bs, hash, es);
    } else {
      var init := es[..|es| - 1];
      assert forall i :: 0 <= i < |init| ==> init[i] == es[i];
      AddAllReadsBack(bs, count, hash, init);
      AddAllExtend(bs, count, hash, es);
    }
  }

  /** HashTableTest: the keys 0 to 99 (an int's hash code is itself), each
      with its value, added to a fresh table; then the table holds 100
      entries and the indexer get of each key yields its value. */
  lemma HashTableTestScenario(values: seq<int>)
    requires |values| == 100
    ensures var id := (k: int) => k;
            var es := seq(100, i requires 0 <= i < 100 => Entry(i, values[i]));
            var (bs', count') := AddAll(seq(DefaultCapacity, _ => []), 0, id, es);
            && count' == 100
            && forall i :: 0 <= i < 100 ==> Lookup(bs', id, i) == Some(values[i])
  {
    var id := (k: int) => k;
    var es := seq(100, i requires 0 <= i < 100 => Entry(i, values[i]));
    var empty: Buckets<int, int> := seq(DefaultCapacity, _ => []);
    assert forall h :: 0 <= h < |empty| ==> empty[h] == [];
    FlattenEmpty(empty);
    assert Inv(empty, id);
    assert forall i :: 0 <= i < |es| ==> es[i] == Entry(i, values[i]);
    assert forall i :: 0 <= i < |es| ==> Lookup(empty, id, es[i].key).None?;
    AddAllReadsBack(empty, 0, id, es);
    var r := AddAll(empty, 0, id, es);
    assert forall i :: 0 <= i < 100 ==> Lookup(r.0, id, es[i].key) == Some(es[i].value);
  }
}
