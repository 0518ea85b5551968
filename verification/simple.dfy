/** SimpleHashTable: one entry per slot at the key's home index, no
    collision resolution, doubling once the load factor passes 0.75. */
module Simple {
  import opened Hashing
  import opened SimpleSpec

  class SimpleHashTable<K(==, 0), V(0)> {
    /** GetHashCode of the key type. */
    const hash: K -> int
    var table: array<Entry<K, V>>
    var occupied: array<bool>
    var size: nat
    var count: nat

    /** Both arrays have the table's size, every occupied slot holds an
        entry at its home index, and count is the number of occupied
        slots. */
    ghost predicate Valid()
      reads this, table, occupied
    {
      && table.Length == size && occupied.Length == size && size > 0
      && Consistent(Model(), count, hash)
    }

    /** The cells the two arrays stand for. */
    function Model(): Cells<K, V>
      reads this, table, occupied
      requires table.Length == occupied.Length
    {
      CellsOf(table[..], occupied[..])
    }

    /** SimpleHashTable(): DefaultCapacity empty slots. */
    constructor (hash: K -> int)
      ensures Valid() && fresh(table) && fresh(occupied)
      ensures this.hash == hash && size == DefaultCapacity && count == 0
      ensures Model() == seq(DefaultCapacity, _ => None)
    {
      this.hash := hash;
      size := DefaultCapacity;
      table := new Entry<K, V>[DefaultCapacity];
      occupied := new bool[DefaultCapacity](_ => false);
      count := 0;
      new;
      CountTrueNone(Filled(Model()));
    }

    /** GetArrayIndex: the home index of a key for the current size. */
    function GetArrayIndex(key: Option<K>): (r: Result<nat>)
      reads this
      requires size > 0
      ensures key.None? <==> r == Err(InvalidKey)
      ensures r.Ok? ==> r.value < size && r.value == Home(hash(key.value), size)
    {
      GetIndex(key, hash, size)
    }

    /** TryGetValue: the home slot, if it is occupied by key. */
    method TryGetValue(key: Option<K>) returns (r: Result<Option<V>>)
      requires Valid()
      ensures key.None? <==> r == Err(InvalidKey)
      ensures key.Some? ==> r == Ok(Lookup(Model(), hash, key.value))
    {
      if key.None? {
        return Err(InvalidKey);
      }
      var index := GetIndex(key, hash, size).value;
      if occupied[index] && table[index].key == key.value {
        return Ok(Some(table[index].value));
      }
      return Ok(None);
    }

    /** The indexer get: KeyNotFound when TryGetValue finds nothing. */
    method Get(key: Option<K>) returns (r: Result<V>)
      requires Valid()
      ensures key.None? ==> r == Err(InvalidKey)
      ensures key.Some? && Lookup(Model(), hash, key.value).None? ==> r == Err(KeyNotFound)
      ensures key.Some? && Lookup(Model(), hash, key.value).Some?
              ==> r == Ok(Lookup(Model(), hash, key.value).value)
    {
      var found := TryGetValue(key);
      match found
      case Err(e) => return Err(e);
      case Ok(None) => return Err(KeyNotFound);
      case Ok(Some(v)) => return Ok(v);
    }

    /** ContainsKey, comparing the home slot's key with key as TryGetValue
        does (the source compares the whole entry with the key). */
    method ContainsKey(key: Option<K>) returns (r: Result<bool>)
      requires Valid()
      ensures key.None? <==> r == Err(InvalidKey)
      ensures key.Some? ==> r == Ok(Lookup(Model(), hash, key.value).Some?)
    {
      if key.None? {
        return Err(InvalidKey);
      }
      var index := GetIndex(key, hash, size).value;
      return Ok(occupied[index] && table[index].key == key.value);
    }

    /** Contains(item): asks only about item's key; the value is ignored. */
    method ContainsPair(item: Entry<K, V>) returns (r: bool)
      requires Valid()
      ensures r == Lookup(Model(), hash, item.key).Some?
    {
      var found := ContainsKey(Some(item.key));
      return found.value;
    }

    /** One pass of the loop of Resize: slot i copied to its home index in
        the new arrays. The source throws a hash collision when that slot is
        already taken; with every entry at home that cannot happen. */
    static method CopySlot(table: array<Entry<K, V>>, occupied: array<bool>,
                           newTable: array<Entry<K, V>>, newOccupied: array<bool>,
                           hash: K -> int, i: nat, ghost cs: Cells<K, V>)
      requires table.Length == occupied.Length == |cs| > 0 && i < |cs|
      requires newTable != table && newOccupied != occupied
      requires newTable.Length == newOccupied.Length == 2 * |cs|
      requires cs == CellsOf(table[..], occupied[..]) && Placed(cs, hash)
      requires CellsOf(newTable[..], newOccupied[..]) == RehashUpTo(cs, hash, i)
      modifies newTable, newOccupied
      ensures CellsOf(newTable[..], newOccupied[..]) == RehashUpTo(cs, hash, i + 1)
    {
      RehashStep(cs, hash, i);
      if occupied[i] {
        var newIndex := GetIndex(Some(table[i].key), hash, newTable.Length).value;
        if newOccupied[newIndex] {
          assert false;
        }
        CellsOfUpdate(newTable[..], newOccupied[..], newIndex, table[i], true);
        newTable[newIndex] := table[i];
        newOccupied[newIndex] := true;
      }
    }

    /** The loop of Resize: every occupied slot copied to its home index in
        the new arrays. */
    method RehashInto(newTable: array<Entry<K, V>>, newOccupied: array<bool>)
      requires Valid() && newTable != table && newOccupied != occupied
      requires newTable.Length == 2 * size && newOccupied.Length == 2 * size
      requires forall y :: 0 <= y < newOccupied.Length ==> !newOccupied[y]
      modifies newTable, newOccupied
      ensures CellsOf(newTable[..], newOccupied[..]) == Rehash(Model(), hash)
    {
      ghost var cs := Model();
      RehashEmpty(cs, hash);
      assert CellsOf(newTable[..], newOccupied[..]) == RehashUpTo(cs, hash, 0);
      var i := 0;
      while i < size
        invariant 0 <= i <= size
        invariant CellsOf(newTable[..], newOccupied[..]) == RehashUpTo(cs, hash, i)
      {
        CopySlot(table, occupied, newTable, newOccupied, hash, i, cs);
        i := i + 1;
      }
    }

    /** Resize: fresh arrays of twice the size, filled by RehashInto, then
        swapped in. */
    method Resize()
      requires Valid()
      modifies this
      ensures Valid() && fresh(table) && fresh(occupied)
      ensures size == 2 * old(size) && count == old(count)
      ensures Model() == Rehash(old(Model()), hash)
    {
      ghost var cs := Model();
      RehashCorrect(cs, hash);
      ghost var rs := Rehash(cs, hash);
      assert Placed(rs, hash) && Occupancy(rs) == count;
      var newTable := new Entry<K, V>[2 * size];
      var newOccupied := new bool[2 * size](_ => false);
      RehashInto(newTable, newOccupied);
      assert CellsOf(newTable[..], newOccupied[..]) == rs;
      size := 2 * size;
      table := newTable;
      occupied := newOccupied;
      assert Model() == rs;
    }

    /** Writes e into its home slot, which is free or holds e's key. */
    method Store(e: Entry<K, V>)
      requires Valid()
      requires var h := Home(hash(e.key), size); !occupied[h] || table[h].key == e.key
      modifies this, table, occupied
      ensures Valid() && size == old(size) && table == old(table) && occupied == old(occupied)
      ensures Model() == old(Model())[Home(hash(e.key), size) := Some(e)]
      ensures count == old(count) + (if old(occupied[Home(hash(e.key), size)]) then 0 else 1)
    {
      var index := GetIndex(Some(e.key), hash, size).value;
      StoreCorrect(Model(), hash, e);
      OccupancyUpdate(Model(), index, Some(e));
      CellsOfUpdate(table[..], occupied[..], index, e, true);
      if !occupied[index] {
        count := count + 1;
      }
      table[index] := e;
      occupied[index] := true;
    }

    /** The store step of Add, on the home slot of the current size. */
    method AddAtHome(e: Entry<K, V>) returns (r: Outcome)
      requires Valid()
      modifies this, table, occupied
      ensures Valid() && size == old(size)
      ensures (Model(), r) == AddHome(old(Model()), hash, e)
    {
      var index := GetIndex(Some(e.key), hash, size).value;
      if !occupied[index] || table[index].key == e.key {
        Store(e);
        return Done;
      }
      return Failed(HashCollision);
    }

    /** Add(key, value): the resize check first; then an empty home slot
        takes the entry, a home slot holding the same key gets the new
        value, and any other key there is a hash collision. */
    method Add(key: Option<K>, value: V) returns (r: Outcome)
      requires Valid()
      modifies this, table, occupied
      ensures Valid()
      ensures key.None? ==> r == Failed(InvalidKey) && Model() == old(Model()) && count == old(count)
      ensures key.Some? ==> (Model(), r) == AddSpec(old(Model()), old(count), hash, Entry(key.value, value))
    {
      if key.None? {
        return Failed(InvalidKey);
      }
      if OverThreeQuarters(count, size) {
        Resize();
      }
      r := AddAtHome(Entry(key.value, value));
    }

    /** The store step of the indexer set, on the home slot of the current
        size. */
    method SetAtHome(e: Entry<K, V>) returns (r: Outcome)
      requires Valid()
      modifies this, table, occupied
      ensures Valid() && size == old(size)
      ensures (Model(), r) == SetHome(old(Model()), hash, e)
    {
      var index := GetIndex(Some(e.key), hash, size).value;
      if !occupied[index] {
        Store(e);
        return Done;
      } else if table[index].key == e.key {
        return Failed(DuplicateKey);
      }
      return Failed(HashCollision);
    }

    /** The indexer set: as Add, except that the same key in the home slot
        fails with DuplicateKey instead of being overwritten. */
    method SetItem(key: Option<K>, value: V) returns (r: Outcome)
      requires Valid()
      modifies this, table, occupied
      ensures Valid()
      ensures key.None? ==> r == Failed(InvalidKey) && Model() == old(Model()) && count == old(count)
      ensures key.Some? ==> (Model(), r) == SetSpec(old(Model()), old(count), hash, Entry(key.value, value))
    {
      if key.None? {
        return Failed(InvalidKey);
      }
      if OverThreeQuarters(count, size) {
        Resize();
      }
      r := SetAtHome(Entry(key.value, value));
    }

    /** Remove(key): the home slot is released when it holds key, comparing
        keys as TryGetValue does (the source compares the whole entry with
        the key). */
    method Remove(key: Option<K>) returns (r: Result<bool>)
      requires Valid()
      modifies this, occupied
      ensures Valid() && size == old(size) && table == old(table) && occupied == old(occupied)
      ensures key.None? ==> r == Err(InvalidKey) && Model() == old(Model()) && count == old(count)
      ensures key.Some? ==> r.Ok? && (Model(), r.value) == RemoveSpec(old(Model()), hash, key.value)
      ensures count == old(count) - (if r == Ok(true) then 1 else 0)
    {
      if key.None? {
        return Err(InvalidKey);
      }
      RemoveCorrect(Model(), hash, key.value);
      var index := GetIndex(key, hash, size).value;
      if occupied[index] && table[index].key == key.value {
        OccupancyUpdate(Model(), index, None);
        CellsOfUpdate(table[..], occupied[..], index, table[index], false);
        occupied[index] := false;
        count := count - 1;
        return Ok(true);
      }
      return Ok(false);
    }

    /** Clear: every slot released and, unlike the source, count reset. */
    method Clear()
      requires Valid()
      modifies this, occupied
      ensures Valid() && size == old(size) && table == old(table) && occupied == old(occupied)
      ensures count == 0 && Model() == seq(size, _ => None)
    {
      var i := 0;
      while i < size
        modifies occupied
        invariant 0 <= i <= size
        invariant forall j :: 0 <= j < i ==> !occupied[j]
      {
        occupied[i] := false;
        i := i + 1;
      }
      count := 0;
      CountTrueNone(Filled(Model()));
    }

    /** GetEnumerator: the entries of the occupied slots in index order. */
    method GetEnumerator() returns (r: seq<Entry<K, V>>)
      requires Valid()
      ensures r == Enumerate(Model())
      ensures |r| == count
    {
      ghost var cs := Model();
      r := [];
      var i := 0;
      while i < size
        invariant 0 <= i <= size
        invariant r == Enumerate(cs[..i])
      {
        EnumerateStep(cs, i);
        if occupied[i] {
          r := r + [table[i]];
        }
        i := i + 1;
      }
      assert cs[..size] == cs;
      EnumerateLength(cs);
    }

    /** Keys: the keys of the occupied slots in index order; as many as
        count. */
    method Keys() returns (keys: seq<K>)
      requires Valid()
      ensures |keys| == |Enumerate(Model())| == count
      ensures forall x :: 0 <= x < |keys| ==> keys[x] == Enumerate(Model())[x].key
    {
      ghost var cs := Model();
      keys := [];
      var i := 0;
      while i < size
        invariant 0 <= i <= size
        invariant |keys| == |Enumerate(cs[..i])|
        invariant forall x :: 0 <= x < |keys| ==> keys[x] == Enumerate(cs[..i])[x].key
      {
        EnumerateStep(cs, i);
        if occupied[i] {
          keys := keys + [table[i].key];
        }
        i := i + 1;
      }
      assert cs[..size] == cs;
      EnumerateLength(cs);
    }

    /** Values: the values of the occupied slots in index order; as many as
        count. */
    function Values(): (r: seq<V>)
      reads this, table, occupied
      requires Valid()
      ensures |r| == |Enumerate(Model())| == count
      ensures forall x :: 0 <= x < |r| ==> r[x] == Enumerate(Model())[x].value
    {
      var es := Enumerate(Model());
      EnumerateLength(Model());
      seq(|es|, x requires 0 <= x < |es| => es[x].value)
    }
  }
}
