/** OpenAddressingHashTable: one entry per slot in three parallel arrays,
    collisions resolved along the probe path of the chosen strategy, removal
    by tombstones, and doubling once the load factor passes 0.6. */
module OpenAddressing {
  import opened Hashing
  import opened Probing
  import opened OpenAddressingSpec

  class OpenAddressingHashTable<K(==, 0), V(0)> {
    /** GetHashCode of the key type. */
    const hash: K -> int
    const strategy: Strategy
    var table: array<Entry<K, V>>
    var occupied: array<bool>
    var deleted: array<bool>
    var size: nat
    var count: nat
    /** Entries a resize left out because their new probe path was full;
        count still includes them. */
    ghost var lost: nat

    /** The three arrays have the table's size and no slot is both
        occupied and deleted. */
    ghost predicate Shaped()
      reads this, table, occupied, deleted
    {
      && table.Length == size && occupied.Length == size && deleted.Length == size
      && occupied != deleted
      && (forall x :: 0 <= x < size ==> !(occupied[x] && deleted[x]))
    }

    ghost predicate Valid()
      reads this, table, occupied, deleted
    {
      Shaped() && Consistent(Model(), count, lost, hash, strategy)
    }

    /** The slots the three arrays stand for. */
    ghost function Model(): Slots<K, V>
      reads this, table, occupied, deleted
      requires table.Length == occupied.Length == deleted.Length
    {
      SlotsOf(table[..], occupied[..], deleted[..])
    }

    /** OpenAddressingHashTable(capacity, strategy): an empty table. */
    constructor (capacity: nat, strategy: Strategy, hash: K -> int)
      requires Supports(strategy, capacity)
      ensures Valid() && fresh(table) && fresh(occupied) && fresh(deleted)
      ensures this.strategy == strategy && this.hash == hash
      ensures size == capacity && count == 0
      ensures Model() == seq(capacity, _ => Empty)
    {
      this.hash := hash;
      this.strategy := strategy;
      size := capacity;
      table := new Entry<K, V>[capacity];
      occupied := new bool[capacity](_ => false);
      deleted := new bool[capacity](_ => false);
      count := 0;
      lost := 0;
      new;
      CountFullNone(Model());
    }

    /** GetArrayIndex: the home index of a key for the current size. */
    function GetArrayIndex(key: Option<K>): (r: Result<nat>)
      reads this, table, occupied, deleted
      requires Valid()
      ensures key.None? <==> r == Err(InvalidKey)
      ensures r.Ok? ==> r.value < size && r.value == ProbePath(strategy, hash(key.value), size)[0]
    {
      GetIndex(key, hash, size)
    }

    /** The search loop shared by ContainsKey, TryGetValue and Remove: the
        slot that holds key, or None. */
    method Search(key: K) returns (r: Option<nat>)
      requires Valid()
      ensures r == Find(Model(), hash, strategy, key)
    {
      ghost var path := ProbePath(strategy, hash(key), size);
      var t := 0;
      while t < size
        invariant 0 <= t <= size
        invariant WalkFrom(Model(), path, key, t) == Find(Model(), hash, strategy, key)
      {
        var index := Probe(strategy, hash(key), size, t);
        assert index == path[t];
        if occupied[index] && table[index].key == key {
          return Some(index);
        }
        if !deleted[index] && !occupied[index] {
          return None;
        }
        t := t + 1;
      }
      return None;
    }

    /** ContainsKey. */
    method ContainsKey(key: Option<K>) returns (r: Result<bool>)
      requires Valid()
      ensures key.None? <==> r == Err(InvalidKey)
      ensures key.Some? ==> r == Ok(Lookup(Model(), hash, strategy, key.value).Some?)
    {
      if key.None? {
        return Err(InvalidKey);
      }
      var x := Search(key.value);
      return Ok(x.Some?);
    }

    /** Contains(item): asks only about item's key; the value is ignored. */
    method ContainsPair(item: Entry<K, V>) returns (r: bool)
      requires Valid()
      ensures r == Lookup(Model(), hash, strategy, item.key).Some?
    {
      var x := Search(item.key);
      return x.Some?;
    }

    /** TryGetValue: the value stored for key, if any. */
    method TryGetValue(key: Option<K>) returns (r: Result<Option<V>>)
      requires Valid()
      ensures key.None? <==> r == Err(InvalidKey)
      ensures key.Some? ==> r == Ok(Lookup(Model(), hash, strategy, key.value))
    {
      if key.None? {
        return Err(InvalidKey);
      }
      var x := Search(key.value);
      match x
      case None => return Ok(None);
      case Some(index) => return Ok(Some(table[index].value));
    }

    /** The indexer get: KeyNotFound when TryGetValue finds nothing. */
    method Get(key: Option<K>) returns (r: Result<V>)
      requires Valid()
      ensures key.None? <==> r == Err(InvalidKey)
      ensures key.Some? ==> (r == Err(KeyNotFound) <==> Lookup(Model(), hash, strategy, key.value).None?)
      ensures r.Ok? ==> key.Some? && Lookup(Model(), hash, strategy, key.value) == Some(r.value)
    {
      var found := TryGetValue(key);
      match found
      case Err(e) => return Err(e);
      case Ok(None) => return Err(KeyNotFound);
      case Ok(Some(v)) => return Ok(v);
    }

    /** The insertion loop of Add and Resize over an occupied[] array of
        any size: the first attempt of the probe path for hash code h whose
        slot is not occupied, or None when every probed slot is. */
    method FreeSlot(occ: array<bool>, h: int, ghost s: Slots<K, V>) returns (r: Option<nat>)
      requires Supports(strategy, occ.Length) && |s| == occ.Length
      requires forall x :: 0 <= x < |s| ==> (s[x].Full? <==> occ[x])
      ensures r == FirstFreeFrom(s, ProbePath(strategy, h, |s|), 0)
    {
      ghost var path := ProbePath(strategy, h, |s|);
      var t := 0;
      while t < occ.Length
        invariant 0 <= t <= occ.Length
        invariant FirstFreeFrom(s, path, t) == FirstFreeFrom(s, path, 0)
      {
        var index := Probe(strategy, h, occ.Length, t);
        assert index == path[t];
        if !occ[index] {
          return Some(t);
        }
        t := t + 1;
      }
      return None;
    }

    /** The insertion loop of Resize: e goes into the first non-occupied
        slot of its probe path in the given arrays, if there is one. */
    method PlaceInto(t: array<Entry<K, V>>, occ: array<bool>, ghost d: seq<bool>, e: Entry<K, V>) returns (placed: bool)
      requires t.Length == occ.Length == |d| && Supports(strategy, occ.Length)
      modifies t, occ
      ensures (SlotsOf(t[..], occ[..], d), placed) == Place(SlotsOf(old(t[..]), old(occ[..]), d), hash, strategy, e)
    {
      ghost var before := SlotsOf(t[..], occ[..], d);
      var u := FreeSlot(occ, hash(e.key), before);
      if u.None? {
        return false;
      }
      PlaceAt(before, hash, strategy, e, u.value);
      var index := Probe(strategy, hash(e.key), occ.Length, u.value);
      ghost var t0, o0 := t[..], occ[..];
      t[index] := e;
      occ[index] := true;
      SlotsOfUpdate(t0, o0, d, index, e, true, d[index]);
      assert d[index := d[index]] == d;
      return true;
    }

    /** Resize's loop: the occupied slots of the current arrays re-placed, in
        index order, into the given empty arrays; the result counts the
        entries that found no free slot. */
    method RehashInto(newTable: array<Entry<K, V>>, newOccupied: array<bool>, newDeleted: array<bool>)
      returns (ghost dropped: nat)
      requires table.Length == size && occupied.Length == size && deleted.Length == size
      requires newTable.Length == newOccupied.Length == newDeleted.Length
      requires newTable != table && newOccupied != occupied && newOccupied != deleted
      requires Supports(strategy, size) && newOccupied.Length == 2 * size
      requires forall x :: 0 <= x < newOccupied.Length ==> !newOccupied[x] && !newDeleted[x]
      modifies newTable, newOccupied
      ensures (SlotsOf(newTable[..], newOccupied[..], newDeleted[..]), dropped) == Rehash(Model(), hash, strategy)
    {
      ghost var prev := Model();
      var m := newOccupied.Length;
      assert Supports(strategy, m);
      dropped := 0;
      assert SlotsOf(newTable[..], newOccupied[..], newDeleted[..]) == seq(m, _ => Empty);
      var i := 0;
      while i < size
        modifies newTable, newOccupied
        invariant 0 <= i <= size
        invariant SlotsOf(newTable[..], newOccupied[..], newDeleted[..]) == RehashFrom(prev, i, hash, strategy, m).0
        invariant dropped == RehashFrom(prev, i, hash, strategy, m).1
      {
        ghost var cur := RehashFrom(prev, i, hash, strategy, m);
        RehashFromStep(prev, i, hash, strategy, m);
        if occupied[i] {
          assert prev[i] == Full(table[i]);
          var placed := PlaceInto(newTable, newOccupied, newDeleted[..], table[i]);
          if !placed {
            dropped := dropped + 1;
          }
        } else {
          assert !prev[i].Full?;
        }
        i := i + 1;
      }
    }

    /** The last step of Resize: the new arrays replace the old ones. */
    method Install(newTable: array<Entry<K, V>>, newOccupied: array<bool>, newDeleted: array<bool>, ghost dropped: nat)
      requires Valid()
      requires newTable.Length == newOccupied.Length == newDeleted.Length == 2 * size
      requires newOccupied != newDeleted
      requires forall x :: 0 <= x < 2 * size ==> !newDeleted[x]
      requires (SlotsOf(newTable[..], newOccupied[..], newDeleted[..]), dropped) == Rehash(Model(), hash, strategy)
      modifies this
      ensures Valid()
      ensures size == 2 * old(size) && count == old(count)
      ensures table == newTable && occupied == newOccupied && deleted == newDeleted
      ensures Model() == Rehash(old(Model()), hash, strategy).0
      ensures lost == old(lost) + Rehash(old(Model()), hash, strategy).1
    {
      ghost var next := SlotsOf(newTable[..], newOccupied[..], newDeleted[..]);
      ResizeKeepsConsistent(Model(), count, lost, hash, strategy);
      size := 2 * size;
      table := newTable;
      occupied := newOccupied;
      deleted := newDeleted;
      lost := lost + dropped;
      assert Model() == next;
    }

    /** Resize: every occupied slot re-placed into fresh arrays of twice the
        size; count is left as it was. */
    method Resize()
      requires Valid()
      modifies this
      ensures Valid()
      ensures size == 2 * old(size) && count == old(count)
      ensures fresh(table) && fresh(occupied) && fresh(deleted)
      ensures Model() == Rehash(old(Model()), hash, strategy).0
      ensures lost == old(lost) + Rehash(old(Model()), hash, strategy).1
    {
      ghost var prev := Model();
      var newSize := size * 2;
      var newTable := new Entry<K, V>[newSize];
      var newOccupied := new bool[newSize](_ => false);
      var newDeleted := new bool[newSize](_ => false);
      ghost var dropped := RehashInto(newTable, newOccupied, newDeleted);
      Install(newTable, newOccupied, newDeleted, dropped);
    }

    /** Add (and the indexer set, whose body is the same): a null key is
        rejected, a present key is a duplicate; otherwise the table first
        grows when count / size > 0.6 and the entry goes into the first
        non-occupied slot of its probe path. Ok(false) stands for the case
        where every probed slot is occupied: the source then returns without
        storing anything. */
    method Add(key: Option<K>, value: V) returns (r: Result<bool>)
      requires Valid()
      modifies this, table, occupied, deleted
      ensures Valid()
      ensures key.None? ==> r == Err(InvalidKey) && Model() == old(Model()) && count == old(count)
      ensures key.Some? ==>
        var (s', dropped, r') := AddSpec(old(Model()), old(count), hash, strategy, key.value, value);
        && Model() == s' && r == r' && lost == old(lost) + dropped
        && count == old(count) + (if r' == Ok(true) then 1 else 0)
    {
      if key.None? {
        return Err(InvalidKey);
      }
      var present := ContainsKey(key);
      if present == Ok(true) {
        return Err(DuplicateKey);
      }
      AddSpecSteps(Model(), count, hash, strategy, key.value, value);
      var placed := GrowAndInsert(Entry(key.value, value));
      return Ok(placed);
    }

    /** Add after its duplicate check: the resize check, then the insertion
        loop. */
    method GrowAndInsert(e: Entry<K, V>) returns (placed: bool)
      requires Valid() && Find(Model(), hash, strategy, e.key).None?
      modifies this, table, occupied, deleted
      ensures Valid()
      ensures var grown := Grow(old(Model()), old(count), hash, strategy);
        && (Model(), placed) == Place(grown.0, hash, strategy, e)
        && lost == old(lost) + grown.1
        && count == old(count) + (if placed then 1 else 0)
    {
      ghost var s0, count0, lost0 := Model(), count, lost;
      AddKeepsConsistent(s0, count0, lost0, hash, strategy, e.key, e.value);
      AddSpecSteps(s0, count0, hash, strategy, e.key, e.value);
      if OverSixTenths(count, size) {
        Resize();
      }
      assert Model() == Grow(s0, count0, hash, strategy).0;
      placed := Insert(e);
    }

    /** The insertion loop of Add: e goes into the first non-occupied slot
        of its probe path (clearing a tombstone there) and count grows; when
        every probed slot is occupied nothing changes. */
    method Insert(e: Entry<K, V>) returns (placed: bool)
      requires Shaped() && Supports(strategy, size)
      modifies table, occupied, deleted, this`count
      ensures Shaped()
      ensures (Model(), placed) == Place(old(Model()), hash, strategy, e)
      ensures count == old(count) + (if placed then 1 else 0)
    {
      ghost var before := Model();
      var u := FreeSlot(occupied, hash(e.key), before);
      if u.None? {
        return false;
      }
      PlaceAt(before, hash, strategy, e, u.value);
      var index := Probe(strategy, hash(e.key), size, u.value);
      ghost var t0, o0, d0 := table[..], occupied[..], deleted[..];
      table[index] := e;
      occupied[index] := true;
      deleted[index] := false;
      count := count + 1;
      SlotsOfUpdate(t0, o0, d0, index, e, true, false);
      return true;
    }

    /** The indexer set: the same steps as Add. */
    method SetItem(key: Option<K>, value: V) returns (r: Result<bool>)
      requires Valid()
      modifies this, table, occupied, deleted
      ensures Valid()
      ensures key.None? ==> r == Err(InvalidKey) && Model() == old(Model()) && count == old(count)
      ensures key.Some? ==>
        var (s', dropped, r') := AddSpec(old(Model()), old(count), hash, strategy, key.value, value);
        && Model() == s' && r == r' && lost == old(lost) + dropped
        && count == old(count) + (if r' == Ok(true) then 1 else 0)
    {
      r := Add(key, value);
    }

    /** Remove: the slot holding key becomes a tombstone. */
    method Remove(key: Option<K>) returns (r: Result<bool>)
      requires Valid()
      modifies this, occupied, deleted
      ensures Valid()
      ensures key.None? ==> r == Err(InvalidKey) && Model() == old(Model()) && count == old(count)
      ensures key.Some? ==>
        var (s', removed) := RemoveSpec(old(Model()), hash, strategy, key.value);
        && Model() == s' && r == Ok(removed)
        && count == old(count) - (if removed then 1 else 0)
      ensures size == old(size) && lost == old(lost)
    {
      if key.None? {
        return Err(InvalidKey);
      }
      var k := key.value;
      ghost var s0 := Model();
      RemoveKeepsConsistent(s0, count, lost, hash, strategy, k);
      var x := Search(k);
      if x.None? {
        return Ok(false);
      }
      var index := x.value;
      ghost var t0, o0, d0 := table[..], occupied[..], deleted[..];
      occupied[index] := false;
      deleted[index] := true;
      count := count - 1;
      SlotsOfUpdate(t0, o0, d0, index, t0[index], false, true);
      assert t0 == t0[index := t0[index]];
      return Ok(true);
    }

    /** Clear: every slot back to never used; count reset. */
    method Clear()
      requires Valid()
      modifies this, occupied, deleted
      ensures Valid()
      ensures size == old(size) && count == 0
      ensures Model() == seq(size, _ => Empty)
    {
      var i := 0;
      while i < size
        modifies occupied, deleted
        invariant 0 <= i <= size
        invariant forall x :: 0 <= x < i ==> !occupied[x] && !deleted[x]
      {
        occupied[i] := false;
        deleted[i] := false;
        i := i + 1;
      }
      count := 0;
      lost := 0;
      CountFullNone(Model());
    }

    /** GetEnumerator: the stored entries in index order. */
    method GetEnumerator() returns (r: seq<Entry<K, V>>)
      requires Shaped()
      ensures r == Enumerate(Model())
    {
      r := [];
      var i := 0;
      while i < size
        invariant 0 <= i <= size
        invariant r == Enumerate(Model()[..i])
      {
        EnumeratePrefix(Model(), i);
        if occupied[i] {
          r := r + [table[i]];
        }
        i := i + 1;
      }
      assert Model()[..size] == Model();
    }

    /** Keys: the key of every stored entry, in index order (the source
        writes each key at index count of a list that is still empty). */
    method Keys() returns (keys: seq<K>)
      requires Shaped()
      ensures keys == KeysOf(Enumerate(Model()))
    {
      keys := [];
      ghost var s := Model();
      var i := 0;
      while i < size
        invariant 0 <= i <= size
        invariant keys == KeysOf(Enumerate(s[..i]))
      {
        KeysValuesPrefix(s, i);
        assert s[i] == SlotOf(table[i], occupied[i], deleted[i]);
        if occupied[i] {
          keys := keys + [table[i].key];
        }
        i := i + 1;
      }
      assert s[..size] == s;
    }

    /** Values: the value of every stored entry, in the order of Keys. */
    method Values() returns (values: seq<V>)
      requires Shaped()
      ensures values == ValuesOf(Enumerate(Model()))
    {
      values := [];
      ghost var s := Model();
      var i := 0;
      while i < size
        invariant 0 <= i <= size
        invariant values == ValuesOf(Enumerate(s[..i]))
      {
        KeysValuesPrefix(s, i);
        assert s[i] == SlotOf(table[i], occupied[i], deleted[i]);
        if occupied[i] {
          values := values + [table[i].value];
        }
        i := i + 1;
      }
      assert s[..size] == s;
    }

    /** Keys as the source writes it: new List(count) has capacity count
        but no elements, so keys[count] = ... is out of range at the first
        occupied slot; only a table with no entry yields (the empty list). */
    method KeysAsWritten() returns (r: Result<seq<K>>)
      requires Shaped()
      ensures r.Err? <==> CountFull(Model()) > 0
      ensures r.Err? ==> r.error == OutOfRange
      ensures r.Ok? ==> r.value == []
    {
      var i := 0;
      while i < size
        invariant 0 <= i <= size
        invariant forall x :: 0 <= x < i ==> !occupied[x]
      {
        if occupied[i] {
          CountFullUpdate(Model(), i, Empty);
          return Err(OutOfRange);
        }
        i := i + 1;
      }
      CountFullNone(Model());
      return Ok([]);
    }
  }
}
