/** The direct-slot table's operations as they are written where they
    differ from what they evidently intend, each beside the corrected
    operation of SimpleSpec and a lemma exhibiting the difference. */
module SimpleFindings {
  import opened Hashing
  import opened SimpleSpec

  // ---------------------------------------------------------------------
  // Resize: GetIndex(key, newSize) ignores newSize

  /** Resize as written: the entry of cell x goes to GetIndex(key, 2n),
      which is its home index for the OLD size n, that is x itself; so no
      collision is ever met and the upper half stays empty. */
  function ResizeAsWritten<K, V>(cs: Cells<K, V>, hash: K -> int): (r: Cells<K, V>)
    requires |cs| > 0
    ensures |r| == 2 * |cs|
  {
    var n := |cs|;
    seq(2 * n, y requires 0 <= y < 2 * n =>
      if y < n && cs[y].Some? && GetIndexAsWritten(Some(cs[y].value.key), hash, 2 * n, n) == Ok(y)
      then cs[y] else None)
  }

  /** A stored key whose home index for the doubled size is not its old
      one is lost by Resize as written, and kept by the corrected Rehash. */
  lemma ResizeAsWrittenLosesKey<K, V>(cs: Cells<K, V>, hash: K -> int, key: K)
    requires |cs| > 0 && Placed(cs, hash) && Lookup(cs, hash, key).Some?
    requires Home(hash(key), 2 * |cs|) != Home(hash(key), |cs|)
    ensures Lookup(ResizeAsWritten(cs, hash), hash, key) == None
    ensures Lookup(Rehash(cs, hash), hash, key) == Lookup(cs, hash, key)
  {
    HomeAfterDoubling(hash(key), |cs|);
    RehashLookup(cs, hash, key);
  }

  /** Sixteen cells with key 16 (hash code 16) in cell 0: after Resize as
      written, cell 16, where the key is looked up, is empty. */
  lemma ResizeAsWrittenExample(v: int)
    ensures var cs := seq(16, i => if i == 0 then Some(Entry(16, v)) else None);
            var id := (k: int) => k;
            && Lookup(cs, id, 16) == Some(v)
            && Lookup(ResizeAsWritten(cs, id), id, 16) == None
            && Lookup(Rehash(cs, id), id, 16) == Some(v)
  {
    var cs: Cells<int, int> := seq(16, i => if i == 0 then Some(Entry(16, v)) else None);
    var id := (k: int) => k;
    assert Home(16, 16) == 0 && Home(16, 32) == 16;
    assert cs[0] == Some(Entry(16, v));
    ResizeAsWrittenLosesKey(cs, id, 16);
  }

  // ---------------------------------------------------------------------
  // ContainsKey and Remove: the entry compared with the key

  /** ContainsKey as written: GetIndex throws on a null key before the null
      check; otherwise the home slot must be occupied and its whole pair
      equal to the key. */
  function ContainsKeyAsWritten<K, V>(cs: Cells<K, V>, hash: K -> int, key: Option<K>): (r: Result<bool>)
    requires |cs| > 0
    ensures r != Ok(true)
    ensures key.None? ==> r == Err(InvalidKey)
  {
    match key
    case None => Err(InvalidKey)
    case Some(k) =>
      var h := Home(hash(k), |cs|);
      Ok(cs[h].Some? && PairEqualsKey(cs[h].value, k))
  }

  /** ContainsKey as written answers false for every key, even a stored
      one, which the corrected lookup finds. */
  lemma ContainsKeyAsWrittenMisses<K, V>(cs: Cells<K, V>, hash: K -> int, key: K)
    requires |cs| > 0
    ensures ContainsKeyAsWritten(cs, hash, Some(key)) == Ok(false)
  {
  }

  /** Remove(key) as written: the slot is released only when its whole
      pair equals the key, which never happens. */
  function RemoveAsWritten<K, V>(cs: Cells<K, V>, hash: K -> int, key: Option<K>): (r: (Cells<K, V>, Result<bool>))
    requires |cs| > 0
    ensures r.0 == cs && r.1 != Ok(true)
    ensures key.None? ==> r.1 == Err(InvalidKey)
  {
    match key
    case None => (cs, Err(InvalidKey))
    case Some(k) =>
      var h := Home(hash(k), |cs|);
      if cs[h].Some? && PairEqualsKey(cs[h].value, k) then (Release(cs, h), Ok(true)) else (cs, Ok(false))
  }

  /** The cells with cell i released: what Remove's occupied[index] = false
      does. */
  function Release<K, V>(cs: Cells<K, V>, i: nat): Cells<K, V> {
    if i < |cs| then cs[i := None] else cs
  }

  /** Remove as written leaves a stored key in place and answers false,
      where the corrected RemoveSpec releases its slot and answers true. */
  lemma RemoveAsWrittenKeeps<K, V>(cs: Cells<K, V>, hash: K -> int, key: K)
    requires |cs| > 0 && Placed(cs, hash) && Lookup(cs, hash, key).Some?
    ensures RemoveAsWritten(cs, hash, Some(key)) == (cs, Ok(false))
    ensures Lookup(RemoveAsWritten(cs, hash, Some(key)).0, hash, key).Some?
    ensures RemoveSpec(cs, hash, key).1 && Lookup(RemoveSpec(cs, hash, key).0, hash, key) == None
  {
    RemoveCorrect(cs, hash, key);
  }

  // ---------------------------------------------------------------------
  // Clear: count is not reset

  /** Clear as written: every slot released; count kept. */
  function ClearAsWritten<K, V>(cs: Cells<K, V>, count: nat): (r: (Cells<K, V>, nat))
    ensures |r.0| == |cs| && r.1 == count
  {
    (seq(|cs|, _ => None), count)
  }

  /** After Clear as written no slot is filled but count still holds the
      number of entries there were. */
  lemma ClearAsWrittenKeepsCount<K, V>(cs: Cells<K, V>)
    requires Occupancy(cs) > 0
    ensures var (cs', count') := ClearAsWritten(cs, Occupancy(cs));
            Occupancy(cs') == 0 && count' > 0
  {
    var cs' := ClearAsWritten(cs, Occupancy(cs)).0;
    CountTrueNone(Filled(cs'));
  }
}
