/** The chaining table's operations as they are written where they differ
    from what they evidently intend, each beside the corrected operation of
    ChainingSpec and a lemma exhibiting the difference. */
module ChainingFindings {
  import opened Hashing
  import opened ChainingSpec

  /** The bucket array as the source holds it: a bucket never created (or
      dropped by Clear) is null. */
  type NullableBuckets<K, V> = seq<Option<Chain<K, V>>>

  /** The buckets the corrected model works on: a null bucket is the empty
      chain. */
  function Strip<K, V>(nb: NullableBuckets<K, V>): (r: Buckets<K, V>)
    ensures |r| == |nb|
  {
    seq(|nb|, h requires 0 <= h < |nb| => if nb[h].Some? then nb[h].value else [])
  }

  // ---------------------------------------------------------------------
  // Resize: GetIndex(key, newSize) ignores newSize

  /** The inner loop of Resize as written: each entry appended to the chain
      at GetIndex(key, 2n), which is its home index for the OLD size n; so
      the upper half of the new array stays empty. */
  function ScatterAsWritten<K, V>(es: seq<Entry<K, V>>, hash: K -> int, n: nat): (r: Buckets<K, V>)
    requires n > 0
    ensures |r| == 2 * n
    ensures forall b :: n <= b < 2 * n ==> r[b] == []
  {
    if es == [] then seq(2 * n, _ => [])
    else
      var d := ScatterAsWritten(es[..|es| - 1], hash, n);
      var e := es[|es| - 1];
      var h := GetIndexAsWritten(Some(e.key), hash, 2 * n, n).value;
      d[h := d[h] + [e]]
  }

  /** Resize as written. */
  function ResizeAsWritten<K, V>(bs: Buckets<K, V>, hash: K -> int): (r: Buckets<K, V>)
    requires |bs| > 0
    ensures |r| == 2 * |bs|
  {
    ScatterAsWritten(Flatten(bs), hash, |bs|)
  }

  /** A stored key whose home index for the doubled size is not its old
      one is lost by Resize as written, and kept by the corrected Rebucket. */
  lemma ResizeAsWrittenLosesKey<K, V>(bs: Buckets<K, V>, hash: K -> int, key: K)
    requires Inv(bs, hash) && Lookup(bs, hash, key).Some?
    requires Home(hash(key), 2 * |bs|) != Home(hash(key), |bs|)
    ensures Lookup(ResizeAsWritten(bs, hash), hash, key) == None
    ensures Lookup(Rebucket(bs, hash), hash, key) == Lookup(bs, hash, key)
  {
    HomeAfterDoubling(hash(key), |bs|);
    RebucketLookup(bs, hash, key);
  }

  /** Sixteen buckets with key 16 (hash code 16) in bucket 0: after Resize
      as written, looking 16 up in bucket 16 finds nothing. */
  lemma ResizeAsWrittenExample(v: int)
    ensures var bs := seq(16, h => if h == 0 then [Entry(16, v)] else []);
            var id := (k: int) => k;
            && Lookup(bs, id, 16) == Some(v)
            && Lookup(ResizeAsWritten(bs, id), id, 16) == None
            && Lookup(Rebucket(bs, id), id, 16) == Some(v)
  {
    var bs: Buckets<int, int> := seq(16, h => if h == 0 then [Entry(16, v)] else []);
    var id := (k: int) => k;
    assert Home(16, 16) == 0 && Home(16, 32) == 16;
    assert bs[0] == [Entry(16, v)];
    assert Lookup(bs, id, 16) == Some(v);
    ResizeAsWrittenLosesKey(bs, id, 16);
  }

  // ---------------------------------------------------------------------
  // Add: a chain that already holds entries is replaced

  /** Add as written: after the duplicate check on a non-null home chain,
      a NEW chain holding only the entry replaces it. The resize before it
      is the corrected Rebucket, so that this member shows the chain
      replacement alone and not the resize defect above. */
  function AddAsWritten<K(==), V>(bs: Buckets<K, V>, count: nat, hash: K -> int, e: Entry<K, V>)
    : (r: (Buckets<K, V>, Outcome))
    requires |bs| > 0
    ensures |r.0| >= |bs| && (r.1 == Done || r.1 == Failed(DuplicateKey))
    ensures r.1 == Done ==> r.0[Home(hash(e.key), |r.0|)] == [e]
  {
    var grown := if OverThreeQuarters(count, |bs|) then Rebucket(bs, hash) else bs;
    var h := Home(hash(e.key), |grown|);
    if ChainLookup(grown[h], e.key).Some? then (grown, Failed(DuplicateKey))
    else (grown[h := [e]], Done)
  }

  /** Adding a new key whose home chain already holds an entry f succeeds
      but loses f, which the corrected AddSpec keeps. */
  lemma AddAsWrittenLosesEntry<K, V>(bs: Buckets<K, V>, count: nat, hash: K -> int, e: Entry<K, V>, f: Entry<K, V>)
    requires Inv(bs, hash) && !OverThreeQuarters(count, |bs|)
    requires Lookup(bs, hash, e.key).None? && f in bs[Home(hash(e.key), |bs|)]
    ensures AddAsWritten(bs, count, hash, e).1 == Done
    ensures Lookup(AddAsWritten(bs, count, hash, e).0, hash, f.key) == None
    ensures Lookup(AddSpec(bs, count, hash, e).0, hash, f.key) == Some(f.value)
  {
    var h := Home(hash(e.key), |bs|);
    var c := bs[h];
    var j :| 0 <= j < |c| && c[j] == f;
    assert Home(hash(f.key), |bs|) == h;
    var found := ChainLookup(c, f.key);
    var k :| 0 <= k < |c| && c[k] == Entry(f.key, found.value);
    assert k == j;
    AddKeepsOthers(bs, count, hash, e, f.key);
  }

  /** Keys 0 and then 16 (hash codes 0 and 16) in the initial sixteen
      buckets: as written the second Add drops key 0. */
  lemma AddAsWrittenExample(v: int, w: int)
    ensures var bs := seq(16, h => if h == 0 then [Entry(0, v)] else []);
            var id := (k: int) => k;
            var (bs', r) := AddAsWritten(bs, 1, id, Entry(16, w));
            && r == Done
            && Lookup(bs', id, 0) == None
            && Lookup(AddSpec(bs, 1, id, Entry(16, w)).0, id, 0) == Some(v)
  {
    var bs: Buckets<int, int> := seq(16, h => if h == 0 then [Entry(0, v)] else []);
    var id := (k: int) => k;
    assert Home(16, 16) == 0 && Home(0, 16) == 0;
    assert bs[0] == [Entry(0, v)];
    assert Lookup(bs, id, 16) == None;
    AddAsWrittenLosesEntry(bs, 1, id, Entry(16, w), Entry(0, v));
  }

  // ---------------------------------------------------------------------
  // ContainsKey and Remove: an entry compared with a key

  /** ContainsKey as written: GetIndex throws on a null key before the null
      check, a null home bucket throws in the foreach, and otherwise every
      entry is compared, as a whole pair, with the key. */
  function ContainsKeyAsWritten<K, V>(nb: NullableBuckets<K, V>, hash: K -> int, key: Option<K>): (r: Result<bool>)
    requires |nb| > 0
    ensures r != Ok(true)
    ensures key.None? ==> r == Err(InvalidKey)
  {
    match key
    case None => Err(InvalidKey)
    case Some(k) =>
      match nb[Home(hash(k), |nb|)]
      case None => Err(NullReference)
      case Some(c) => Ok(exists j | 0 <= j < |c| :: PairEqualsKey(c[j], k))
  }

  /** ContainsKey as written never answers true, even for a stored key,
      which the corrected lookup finds. */
  lemma ContainsKeyAsWrittenMisses<K, V>(nb: NullableBuckets<K, V>, hash: K -> int, key: K)
    requires |nb| > 0
    ensures ContainsKeyAsWritten(nb, hash, Some(key)) != Ok(true)
    ensures Lookup(Strip(nb), hash, key).Some? ==> ContainsKeyAsWritten(nb, hash, Some(key)) == Ok(false)
  {
    var h := Home(hash(key), |nb|);
    assert Strip(nb)[h] == if nb[h].Some? then nb[h].value else [];
  }

  /** Remove(key) as written: the null check, then the foreach over the
      home bucket (throwing when it is null), comparing whole pairs with the
      key; nothing is ever removed. */
  function RemoveAsWritten<K, V>(nb: NullableBuckets<K, V>, hash: K -> int, key: Option<K>)
    : (r: (NullableBuckets<K, V>, Result<bool>))
    requires |nb| > 0
    ensures r.0 == nb && r.1 != Ok(true)
    ensures key.None? ==> r.1 == Err(InvalidKey)
  {
    match key
    case None => (nb, Err(InvalidKey))
    case Some(k) =>
      var h := Home(hash(k), |nb|);
      match nb[h]
      case None => (nb, Err(NullReference))
      case Some(c) =>
        if exists j | 0 <= j < |c| :: PairEqualsKey(c[j], k) then (nb, Ok(true)) else (nb, Ok(false))
  }

  /** Remove as written leaves a stored key in place and answers false,
      where the corrected RemoveSpec unlinks it and answers true. */
  lemma RemoveAsWrittenKeeps<K, V>(nb: NullableBuckets<K, V>, hash: K -> int, key: K)
    requires Inv(Strip(nb), hash) && Lookup(Strip(nb), hash, key).Some?
    ensures RemoveAsWritten(nb, hash, Some(key)) == (nb, Ok(false))
    ensures RemoveSpec(Strip(nb), hash, key).1
    ensures Lookup(RemoveSpec(Strip(nb), hash, key).0, hash, key) == None
  {
    var h := Home(hash(key), |nb|);
    assert Strip(nb)[h] == if nb[h].Some? then nb[h].value else [];
    RemoveCorrect(Strip(nb), hash, key);
  }

  // ---------------------------------------------------------------------
  // Keys and Values: a foreach over every bucket, null or not

  /** The entries Keys and Values walk, as written: the first null bucket
      throws; with every bucket created, the entries bucket by bucket. */
  function EntriesAsWritten<K, V>(nb: NullableBuckets<K, V>): (r: Result<seq<Entry<K, V>>>)
    ensures r.Ok? <==> forall h :: 0 <= h < |nb| ==> nb[h].Some?
    ensures r.Err? ==> r.error == NullReference
  {
    if exists h | 0 <= h < |nb| :: nb[h].None? then Err(NullReference) else Ok(Flatten(Strip(nb)))
  }

  /** On a fresh table, whose sixteen buckets are all null, Keys and Values
      as written throw; the corrected walk yields the empty sequence. */
  lemma EntriesAsWrittenFresh<K, V>()
    ensures var nb: NullableBuckets<K, V> := seq(DefaultCapacity, _ => None);
            EntriesAsWritten(nb) == Err(NullReference) && Flatten(Strip(nb)) == []
  {
    var nb: NullableBuckets<K, V> := seq(DefaultCapacity, _ => None);
    assert nb[0].None?;
    FlattenEmpty(Strip(nb));
  }

  // ---------------------------------------------------------------------
  // Clear: count is not reset

  /** Clear as written: every bucket set to null; count kept. */
  function ClearAsWritten<K, V>(nb: NullableBuckets<K, V>, count: nat): (r: (NullableBuckets<K, V>, nat))
    ensures |r.0| == |nb| && r.1 == count
  {
    (seq(|nb|, _ => None), count)
  }

  /** After Clear as written the table holds no entry but still counts
      the ones it had. */
  lemma ClearAsWrittenKeepsCount<K, V>(nb: NullableBuckets<K, V>)
    requires Flatten(Strip(nb)) != []
    ensures var (nb', count') := ClearAsWritten(nb, |Flatten(Strip(nb))|);
            Flatten(Strip(nb')) == [] && count' > 0
  {
    var nb' := ClearAsWritten(nb, |Flatten(Strip(nb))|).0;
    FlattenEmpty(Strip(nb'));
  }
}
