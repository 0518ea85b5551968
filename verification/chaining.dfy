/** ChainingHashTable: an array of chains, each key in the chain of its home
    index, doubling (and re-bucketing every entry) once the load factor
    passes 0.75. The class is declared twice in the repository, with the
    same operations; this one class models both declarations. */
module Chaining {
  import opened Hashing
  import opened ChainingSpec

  class ChainingHashTable<K(==), V> {
    /** GetHashCode of the key type. */
    const hash: K -> int
    /** The bucket array; a bucket that was never created is the empty chain. */
    var table: array<Chain<K, V>>
    var size: nat
    var count: nat

    /** The array has the table's size, its chains satisfy the bucket
        invariant, and count is the number of entries. */
    ghost predicate Valid()
      reads this, table
    {
      table.Length == size && Inv(table[..], hash) && count == |Flatten(table[..])|
    }

    /** ChainingHashTable(): DefaultCapacity empty buckets. */
    constructor (hash: K -> int)
      ensures Valid() && fresh(table)
      ensures this.hash == hash && size == DefaultCapacity && count == 0
      ensures forall i :: 0 <= i < size ==> table[i] == []
    {
      this.hash := hash;
      size := DefaultCapacity;
      table := new Chain<K, V>[DefaultCapacity](_ => []);
      count := 0;
      new;
      FlattenEmpty(table[..]);
    }

    /** GetArrayIndex: the home index of a key for the current size. */
    function GetArrayIndex(key: Option<K>): (r: Result<nat>)
      reads this
      requires size > 0
      ensures key.None? <==> r == Err(InvalidKey)
      ensures r.Ok? ==> r.value < size && r.value == Home(hash(key.value), size)
    {
      GetIndex(key, hash, size)
    }

    /** The foreach over one chain that stops at the first entry with key. */
    static method Seek(chain: Chain<K, V>, key: K) returns (r: Option<nat>)
      ensures r == Position(chain, key)
    {
      var j := 0;
      while j < |chain|
        invariant 0 <= j <= |chain|
        invariant forall i :: 0 <= i < j ==> chain[i].key != key
      {
        if chain[j].key == key {
          return Some(j);
        }
        j := j + 1;
      }
      return None;
    }

    /** TryGetValue: the value of the entry with key in its home chain. */
    method TryGetValue(key: Option<K>) returns (r: Result<Option<V>>)
      requires Valid()
      ensures key.None? <==> r == Err(InvalidKey)
      ensures key.Some? ==> r == Ok(Lookup(table[..], hash, key.value))
    {
      if key.None? {
        return Err(InvalidKey);
      }
      var index := GetIndex(key, hash, size).value;
      var found := Seek(table[index], key.value);
      match found
      case None => return Ok(None);
      case Some(j) => return Ok(Some(table[index][j].value));
    }

    /** The indexer get: KeyNotFound when TryGetValue finds nothing. */
    method Get(key: Option<K>) returns (r: Result<V>)
      requires Valid()
      ensures key.None? ==> r == Err(InvalidKey)
      ensures key.Some? && Lookup(table[..], hash, key.value).None? ==> r == Err(KeyNotFound)
      ensures key.Some? && Lookup(table[..], hash, key.value).Some?
              ==> r == Ok(Lookup(table[..], hash, key.value).value)
    {
      var found := TryGetValue(key);
      match found
      case Err(e) => return Err(e);
      case Ok(None) => return Err(KeyNotFound);
      case Ok(Some(v)) => return Ok(v);
    }

    /** ContainsKey, comparing each entry's key with key as TryGetValue does
        (the source compares the whole entry with the key). */
    method ContainsKey(key: Option<K>) returns (r: Result<bool>)
      requires Valid()
      ensures key.None? <==> r == Err(InvalidKey)
      ensures key.Some? ==> r == Ok(Lookup(table[..], hash, key.value).Some?)
    {
      if key.None? {
        return Err(InvalidKey);
      }
      var index := GetIndex(key, hash, size).value;
      var found := Seek(table[index], key.value);
      return Ok(found.Some?);
    }

    /** Contains(item): asks only about item's key; the value is ignored. */
    method ContainsPair(item: Entry<K, V>) returns (r: bool)
      requires Valid()
      ensures r == Lookup(table[..], hash, item.key).Some?
    {
      var found := ContainsKey(Some(item.key));
      return found.value;
    }

    /** The inner foreach of Resize: the entries of one chain appended, in
        order, to the chains of their home indices for the new size. */
    static method DistributeChain(newTable: array<Chain<K, V>>, chain: Chain<K, V>, hash: K -> int,
                                  ghost done: seq<Entry<K, V>>)
      requires newTable.Length > 0
      requires newTable[..] == Distribute(done, hash, newTable.Length)
      modifies newTable
      ensures newTable[..] == Distribute(done + chain, hash, newTable.Length)
    {
      var k := 0;
      assert done + chain[..0] == done;
      while k < |chain|
        invariant 0 <= k <= |chain|
        invariant newTable[..] == Distribute(done + chain[..k], hash, newTable.Length)
      {
        var e := chain[k];
        var newIndex := GetIndex(Some(e.key), hash, newTable.Length).value;
        DistributeStep(done + chain[..k], e, hash, newTable.Length);
        assert done + chain[..k + 1] == done + chain[..k] + [e];
        ghost var before := newTable[..];
        newTable[newIndex] := newTable[newIndex] + [e];
        assert newTable[..] == before[newIndex := before[newIndex] + [e]];
        k := k + 1;
      }
      assert chain[..|chain|] == chain;
    }

    /** The outer loop of Resize: every chain of the table distributed into
        newTable, which starts out empty and twice as large. */
    method RehashInto(newTable: array<Chain<K, V>>)
      requires Valid() && newTable != table
      requires newTable.Length == 2 * size
      requires forall h :: 0 <= h < newTable.Length ==> newTable[h] == []
      modifies newTable
      ensures newTable[..] == Rebucket(table[..], hash)
    {
      ghost var bs := table[..];
      assert newTable[..] == seq(2 * size, _ => []);
      var i := 0;
      while i < size
        invariant 0 <= i <= size
        invariant newTable[..] == Distribute(Flatten(bs[..i]), hash, 2 * size)
      {
        DistributeChain(newTable, table[i], hash, Flatten(bs[..i]));
        FlattenStep(bs, i);
        i := i + 1;
      }
      assert bs[..size] == bs;
    }

    /** Resize: a fresh array of twice the size, filled by appending every
        entry, bucket by bucket and chain by chain, to the chain of its home
        index for the new size. */
    method Resize()
      requires Valid()
      modifies this
      ensures Valid() && fresh(table)
      ensures size == 2 * old(size) && count == old(count)
      ensures table[..] == Rebucket(old(table[..]), hash)
    {
      var newTable := new Chain<K, V>[size * 2](_ => []);
      RehashInto(newTable);
      RebucketCorrect(table[..], hash);
      size := size * 2;
      table := newTable;
    }

    /** Add(key, value): the resize check first, then the duplicate check on
        the home chain, then the entry appended to that chain. */
    method Add(key: Option<K>, value: V) returns (r: Outcome)
      requires Valid()
      modifies this, table
      ensures Valid()
      ensures key.None? ==> r == Failed(InvalidKey) && table == old(table) && size == old(size)
      ensures key.None? ==> table[..] == old(table[..]) && count == old(count)
      ensures key.Some? ==> (table[..], r) == AddSpec(old(table[..]), old(count), hash, Entry(key.value, value))
      ensures size == table.Length
      ensures count == old(count) + (if r == Done then 1 else 0)
    {
      if key.None? {
        return Failed(InvalidKey);
      }
      var e := Entry(key.value, value);
      ghost var bs := table[..];
      AddCorrect(bs, count, hash, e);
      if OverThreeQuarters(count, size) {
        Resize();
      }
      var index := GetIndex(key, hash, size).value;
      var found := Seek(table[index], key.value);
      if found.Some? {
        return Failed(DuplicateKey);
      }
      table[index] := table[index] + [e];
      count := count + 1;
      return Done;
    }

    /** Remove(key): unlinks the entry with key from its home chain,
        comparing keys as TryGetValue does (the source compares the whole
        entry with the key). */
    method Remove(key: Option<K>) returns (r: Result<bool>)
      requires Valid()
      modifies this, table
      ensures Valid() && table == old(table) && size == old(size)
      ensures key.None? ==> r == Err(InvalidKey) && table[..] == old(table[..]) && count == old(count)
      ensures key.Some? ==> r.Ok? && (table[..], r.value) == RemoveSpec(old(table[..]), hash, key.value)
      ensures count == old(count) - (if r == Ok(true) then 1 else 0)
    {
      if key.None? {
        return Err(InvalidKey);
      }
      ghost var bs := table[..];
      RemoveCorrect(bs, hash, key.value);
      var index := GetIndex(key, hash, size).value;
      var found := Seek(table[index], key.value);
      match found
      case None =>
        return Ok(false);
      case Some(j) =>
        table[index] := table[index][..j] + table[index][j + 1..];
        count := count - 1;
        return Ok(true);
    }

    /** Clear: every bucket emptied and, unlike the source, count reset. */
    method Clear()
      requires Valid()
      modifies this, table
      ensures Valid() && table == old(table) && size == old(size) && count == 0
      ensures forall i :: 0 <= i < size ==> table[i] == []
    {
      var i := 0;
      while i < size
        modifies table
        invariant 0 <= i <= size
        invariant forall j :: 0 <= j < i ==> table[j] == []
      {
        table[i] := [];
        i := i + 1;
      }
      count := 0;
      FlattenEmpty(table[..]);
    }

    /** Keys: the key of every entry, bucket by bucket in chain order; as
        many as count. */
    method Keys() returns (keys: seq<K>)
      requires Valid()
      ensures |keys| == count
      ensures forall x :: 0 <= x < |keys| ==> keys[x] == Flatten(table[..])[x].key
    {
      keys := [];
      ghost var bs := table[..];
      var i := 0;
      while i < size
        invariant 0 <= i <= size
        invariant |keys| == |Flatten(bs[..i])|
        invariant forall x :: 0 <= x < |keys| ==> keys[x] == Flatten(bs[..i])[x].key
      {
        var chain := table[i];
        ghost var done := Flatten(bs[..i]);
        var k := 0;
        while k < |chain|
          invariant 0 <= k <= |chain|
          invariant |keys| == |done + chain[..k]|
          invariant forall x :: 0 <= x < |keys| ==> keys[x] == (done + chain[..k])[x].key
        {
          assert done + chain[..k + 1] == done + chain[..k] + [chain[k]];
          keys := keys + [chain[k].key];
          k := k + 1;
        }
        assert chain[..|chain|] == chain;
        FlattenStep(bs, i);
        i := i + 1;
      }
      assert bs[..size] == bs;
    }

    /** Values: the value of every entry, in the order of Keys. */
    method Values() returns (values: seq<V>)
      requires Valid()
      ensures |values| == count
      ensures forall x :: 0 <= x < |values| ==> values[x] == Flatten(table[..])[x].value
    {
      values := [];
      ghost var bs := table[..];
      var i := 0;
      while i < size
        invariant 0 <= i <= size
        invariant |values| == |Flatten(bs[..i])|
        invariant forall x :: 0 <= x < |values| ==> values[x] == Flatten(bs[..i])[x].value
      {
        var chain := table[i];
        ghost var done := Flatten(bs[..i]);
        var k := 0;
        while k < |chain|
          invariant 0 <= k <= |chain|
          invariant |values| == |done + chain[..k]|
          invariant forall x :: 0 <= x < |values| ==> values[x] == (done + chain[..k])[x].value
        {
          assert done + chain[..k + 1] == done + chain[..k] + [chain[k]];
          values := values + [chain[k].value];
          k := k + 1;
        }
        assert chain[..|chain|] == chain;
        FlattenStep(bs, i);
        i := i + 1;
      }
      assert bs[..size] == bs;
    }
  }
}
