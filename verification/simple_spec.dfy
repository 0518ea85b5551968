/** The direct-slot table as a value: one cell per index, empty or holding
    the single entry whose key has that home index. */
module SimpleSpec {
  import opened Hashing

  type Cells<K, V> = seq<Option<Entry<K, V>>>

  /** The cells the two arrays stand for: a slot's entry counts only while
      the slot is occupied. */
  function CellsOf<K, V>(table: seq<Entry<K, V>>, occupied: seq<bool>): (r: Cells<K, V>)
    requires |table| == |occupied|
    ensures |r| == |occupied|
    ensures forall i :: 0 <= i < |r| ==> (r[i].Some? <==> occupied[i])
    ensures forall i :: 0 <= i < |r| && occupied[i] ==> r[i] == Some(table[i])
  {
    seq(|occupied|, i requires 0 <= i < |occupied| => if occupied[i] then Some(table[i]) else None)
  }

  lemma CellsOfUpdate<K, V>(table: seq<Entry<K, V>>, occupied: seq<bool>, i: nat, e: Entry<K, V>, b: bool)
    requires |table| == |occupied| && i < |occupied|
    ensures CellsOf(table[i := e], occupied[i := b]) == CellsOf(table, occupied)[i := if b then Some(e) else None]
    ensures CellsOf(table, occupied[i := false]) == CellsOf(table, occupied)[i := None]
  {
  }

  /** Which cells are filled: the occupied flags. */
  function Filled<K, V>(cs: Cells<K, V>): (r: seq<bool>)
    ensures |r| == |cs|
    ensures forall i :: 0 <= i < |cs| ==> r[i] == cs[i].Some?
  {
    seq(|cs|, i requires 0 <= i < |cs| => cs[i].Some?)
  }

  /** The number of filled cells: what count stands for. */
  function Occupancy<K, V>(cs: Cells<K, V>): nat {
    CountTrue(Filled(cs))
  }

  /** Filling an empty cell adds one to the occupancy, emptying a filled one
      takes one away, and replacing an entry keeps it. */
  lemma OccupancyUpdate<K, V>(cs: Cells<K, V>, i: nat, c: Option<Entry<K, V>>)
    requires i < |cs|
    ensures Occupancy(cs[i := c]) + (if cs[i].Some? then 1 else 0)
         == Occupancy(cs) + (if c.Some? then 1 else 0)
  {
    assert Filled(cs[i := c]) == Filled(cs)[i := c.Some?];
    CountTrueUpdate(Filled(cs), i, c.Some?);
  }

  /** Every entry sits at its home index. */
  ghost predicate Placed<K, V>(cs: Cells<K, V>, hash: K -> int) {
    forall i :: 0 <= i < |cs| && cs[i].Some? ==> Home(hash(cs[i].value.key), |cs|) == i
  }

  /** What the table keeps: every entry at home, and count is the number
      of filled cells. */
  ghost predicate Consistent<K, V>(cs: Cells<K, V>, count: nat, hash: K -> int) {
    Placed(cs, hash) && count == Occupancy(cs)
  }

  /** TryGetValue: only the home cell of the key is consulted. */
  function Lookup<K(==), V>(cs: Cells<K, V>, hash: K -> int, key: K): (r: Option<V>)
    requires |cs| > 0
    ensures r.Some? ==> Some(Entry(key, r.value)) in cs
  {
    var i := Home(hash(key), |cs|);
    if cs[i].Some? && cs[i].value.key == key then Some(cs[i].value.value) else None
  }

  /** With every entry at home, no key is stored twice, and a stored entry
      is exactly what the lookup of its key finds. */
  lemma PlacedLookup<K, V>(cs: Cells<K, V>, hash: K -> int, i: nat)
    requires |cs| > 0 && Placed(cs, hash) && i < |cs| && cs[i].Some?
    ensures Lookup(cs, hash, cs[i].value.key) == Some(cs[i].value.value)
    ensures forall j :: 0 <= j < |cs| && cs[j].Some? && cs[j].value.key == cs[i].value.key ==> j == i
  {
  }

  // ---------------------------------------------------------------------
  // Enumeration: GetEnumerator, Keys and Values

  /** The entries of the filled cells in index order. */
  function Enumerate<K, V>(cs: Cells<K, V>): (r: seq<Entry<K, V>>)
    ensures |r| <= |cs|
    ensures forall i :: 0 <= i < |r| ==> Some(r[i]) in cs
  {
    if cs == [] then []
    else Enumerate(cs[..|cs| - 1]) + (if cs[|cs| - 1].Some? then [cs[|cs| - 1].value] else [])
  }

  lemma EnumerateStep<K, V>(cs: Cells<K, V>, i: nat)
    requires i < |cs|
    ensures Enumerate(cs[..i + 1]) == Enumerate(cs[..i]) + (if cs[i].Some? then [cs[i].value] else [])
  {
    assert cs[..i + 1][..i] == cs[..i];
  }

  /** The enumeration lists as many entries as there are filled cells. */
  lemma {:induction false} EnumerateLength<K, V>(cs: Cells<K, V>)
    ensures |Enumerate(cs)| == Occupancy(cs)
  {
    if cs != [] {
      var init := cs[..|cs| - 1];
      EnumerateLength(init);
      assert Filled(cs)[..|cs| - 1] == Filled(init);
    }
  }

  /** Every listed entry comes from a filled cell, and every filled cell is
      listed. */
  lemma {:induction false} EnumerateMembers<K, V>(cs: Cells<K, V>, e: Entry<K, V>)
    ensures e in Enumerate(cs) <==> exists i :: 0 <= i < |cs| && cs[i] == Some(e)
  {
    if cs != [] {
      var n := |cs|;
      var init := cs[..n - 1];
      EnumerateMembers(init, e);
      if exists i :: 0 <= i < n && cs[i] == Some(e) {
        var i :| 0 <= i < n && cs[i] == Some(e);
        if i < n - 1 {
          assert init[i] == Some(e);
        }
      }
      if exists i :: 0 <= i < n - 1 && init[i] == Some(e) {
        var i :| 0 <= i < n - 1 && init[i] == Some(e);
        assert cs[i] == Some(e);
      }
    }
  }

  /** The enumeration lists exactly the stored pairs: an entry is listed iff
      the lookup of its key yields its value. */
  lemma EnumerateMatchesLookups<K, V>(cs: Cells<K, V>, hash: K -> int, e: Entry<K, V>)
    requires |cs| > 0 && Placed(cs, hash)
    ensures e in Enumerate(cs) <==> Lookup(cs, hash, e.key) == Some(e.value)
  {
    EnumerateMembers(cs, e);
    var h := Home(hash(e.key), |cs|);
    if Lookup(cs, hash, e.key) == Some(e.value) {
      assert cs[h] == Some(e);
    }
  }

  // ---------------------------------------------------------------------
  // Resize

  /** The cells Resize has filled after copying the cells below i into a
      table of twice the size: each entry at its home index for the new
      size, which is its old index or that plus the old size. */
  function RehashUpTo<K, V>(cs: Cells<K, V>, hash: K -> int, i: nat): (r: Cells<K, V>)
    requires |cs| > 0
    ensures |r| == 2 * |cs|
  {
    var n := |cs|;
    seq(2 * n, y requires 0 <= y < 2 * n =>
      var x := if y < n then y else y - n;
      if x < i && cs[x].Some? && Home(hash(cs[x].value.key), 2 * n) == y then cs[x] else None)
  }

  /** Resize's result. */
  function Rehash<K, V>(cs: Cells<K, V>, hash: K -> int): (r: Cells<K, V>)
    requires |cs| > 0
    ensures |r| == 2 * |cs|
  {
    RehashUpTo(cs, hash, |cs|)
  }

  /** A key's home index for twice the size is its old one or that plus
      the old size. */
  lemma NewHome<K, V>(cs: Cells<K, V>, hash: K -> int, i: nat)
    requires |cs| > 0 && Placed(cs, hash) && i < |cs| && cs[i].Some?
    ensures var y := Home(hash(cs[i].value.key), 2 * |cs|);
            y == i || y == i + |cs|
  {
    HomeAfterDoubling(hash(cs[i].value.key), |cs|);
  }

  /** Copying cell i changes only the cell of its entry's new home. */
  lemma RehashCell<K, V>(cs: Cells<K, V>, hash: K -> int, i: nat, z: nat)
    requires |cs| > 0 && Placed(cs, hash) && i < |cs| && z < 2 * |cs|
    ensures RehashUpTo(cs, hash, i + 1)[z]
         == if cs[i].Some? && Home(hash(cs[i].value.key), 2 * |cs|) == z then cs[i]
            else RehashUpTo(cs, hash, i)[z]
  {
    if cs[i].Some? {
      NewHome(cs, hash, i);
    }
  }

  /** One more cell copied: an entry lands on its new home, which nothing
      copied so far occupies (the collision Resize checks for never
      happens). */
  lemma RehashStep<K, V>(cs: Cells<K, V>, hash: K -> int, i: nat)
    requires |cs| > 0 && Placed(cs, hash) && i < |cs|
    ensures cs[i].None? ==> RehashUpTo(cs, hash, i + 1) == RehashUpTo(cs, hash, i)
    ensures cs[i].Some? ==>
              var y := Home(hash(cs[i].value.key), 2 * |cs|);
              && (y == i || y == i + |cs|)
              && RehashUpTo(cs, hash, i)[y].None?
              && RehashUpTo(cs, hash, i + 1) == RehashUpTo(cs, hash, i)[y := cs[i]]
  {
    var a, b := RehashUpTo(cs, hash, i), RehashUpTo(cs, hash, i + 1);
    var a' := if cs[i].Some? then a[Home(hash(cs[i].value.key), 2 * |cs|) := cs[i]] else a;
    forall z | 0 <= z < 2 * |cs|
      ensures b[z] == a'[z]
    {
      RehashCell(cs, hash, i, z);
    }
    assert b == a';
    if cs[i].Some? {
      NewHome(cs, hash, i);
    }
  }

  lemma RehashEmpty<K, V>(cs: Cells<K, V>, hash: K -> int)
    requires |cs| > 0
    ensures RehashUpTo(cs, hash, 0) == seq(2 * |cs|, _ => None)
    ensures Occupancy(RehashUpTo(cs, hash, 0)) == 0
  {
    CountTrueNone(Filled(RehashUpTo(cs, hash, 0)));
  }

  /** Every copied entry is at its home index for the new size. */
  lemma RehashUpToPlaced<K, V>(cs: Cells<K, V>, hash: K -> int, i: nat)
    requires |cs| > 0
    ensures Placed(RehashUpTo(cs, hash, i), hash)
  {
  }

  /** Copying cell i fills one more cell iff cell i is filled. */
  lemma RehashCountStep<K, V>(cs: Cells<K, V>, hash: K -> int, i: nat)
    requires |cs| > 0 && Placed(cs, hash) && i < |cs|
    ensures Occupancy(RehashUpTo(cs, hash, i + 1))
         == Occupancy(RehashUpTo(cs, hash, i)) + (if cs[i].Some? then 1 else 0)
  {
    RehashStep(cs, hash, i);
    if cs[i].Some? {
      var y := Home(hash(cs[i].value.key), 2 * |cs|);
      OccupancyUpdate(RehashUpTo(cs, hash, i), y, cs[i]);
    }
  }

  /** Copying the cells below i fills as many cells as were filled below i. */
  lemma {:induction false} RehashUpToCount<K, V>(cs: Cells<K, V>, hash: K -> int, i: nat)
    requires |cs| > 0 && Placed(cs, hash) && i <= |cs|
    ensures Occupancy(RehashUpTo(cs, hash, i)) == CountTrue(Filled(cs)[..i])
  {
    if i == 0 {
      RehashEmpty(cs, hash);
    } else {
      RehashUpToCount(cs, hash, i - 1);
      RehashCountStep(cs, hash, i - 1);
      CountTrueStep(Filled(cs), i - 1);
    }
  }

  /** Resize keeps every entry at home, keeps the count and changes no
      lookup. */
  lemma RehashCorrect<K, V>(cs: Cells<K, V>, hash: K -> int)
    requires |cs| > 0 && Placed(cs, hash)
    ensures Placed(Rehash(cs, hash), hash)
    ensures Occupancy(Rehash(cs, hash)) == Occupancy(cs)
  {
    RehashUpToPlaced(cs, hash, |cs|);
    RehashUpToCount(cs, hash, |cs|);
    assert Filled(cs)[..|cs|] == Filled(cs);
  }

  lemma RehashLookup<K, V>(cs: Cells<K, V>, hash: K -> int, key: K)
    requires |cs| > 0 && Placed(cs, hash)
    ensures Lookup(Rehash(cs, hash), hash, key) == Lookup(cs, hash, key)
  {
    var n := |cs|;
    var h := Home(hash(key), n);
    HomeAfterDoubling(hash(key), n);
  }

  // ---------------------------------------------------------------------
  // Add and the indexer set

  /** The resize check of Add and the indexer set: the cells rehashed
      into twice as many when the load factor is over 0.75. */
  function Grow<K, V>(cs: Cells<K, V>, count: nat, hash: K -> int): (r: Cells<K, V>)
    requires |cs| > 0
    ensures |r| == (if OverThreeQuarters(count, |cs|) then 2 * |cs| else |cs|)
  {
    if OverThreeQuarters(count, |cs|) then Rehash(cs, hash) else cs
  }

  /** The store step of Add: the entry goes into its home cell if that is
      empty or holds the same key (overwriting the value); any other key
      there is a hash collision. */
  function AddHome<K(==), V>(cs: Cells<K, V>, hash: K -> int, e: Entry<K, V>): (r: (Cells<K, V>, Outcome))
    requires |cs| > 0
    ensures |r.0| == |cs| && (r.1 == Done || r.1 == Failed(HashCollision))
    ensures r.1 == Done ==> Lookup(r.0, hash, e.key) == Some(e.value)
    ensures r.1 != Done ==> r.0 == cs
  {
    var h := Home(hash(e.key), |cs|);
    if cs[h].None? || cs[h].value.key == e.key then (cs[h := Some(e)], Done)
    else (cs, Failed(HashCollision))
  }

  /** The store step of the indexer set: as AddHome, except that the same
      key fails with DuplicateKey instead of being overwritten. */
  function SetHome<K(==), V>(cs: Cells<K, V>, hash: K -> int, e: Entry<K, V>): (r: (Cells<K, V>, Outcome))
    requires |cs| > 0
    ensures |r.0| == |cs| && (r.1 == Done || r.1 == Failed(DuplicateKey) || r.1 == Failed(HashCollision))
    ensures r.1 == Failed(DuplicateKey) <==> Lookup(cs, hash, e.key).Some?
    ensures r.1 == Done ==> Lookup(r.0, hash, e.key) == Some(e.value)
    ensures r.1 != Done ==> r.0 == cs
  {
    var h := Home(hash(e.key), |cs|);
    if cs[h].None? then (cs[h := Some(e)], Done)
    else if cs[h].value.key == e.key then (cs, Failed(DuplicateKey))
    else (cs, Failed(HashCollision))
  }

  /** Add(key, value): the resize check, then the store step. */
  function AddSpec<K(==), V>(cs: Cells<K, V>, count: nat, hash: K -> int, e: Entry<K, V>)
    : (r: (Cells<K, V>, Outcome))
    requires |cs| > 0
    ensures |r.0| >= |cs| && (r.1 == Done || r.1 == Failed(HashCollision))
    ensures r.1 == Done ==> Lookup(r.0, hash, e.key) == Some(e.value)
  {
    AddHome(Grow(cs, count, hash), hash, e)
  }

  /** The indexer set: the resize check, then the store step. */
  function SetSpec<K(==), V>(cs: Cells<K, V>, count: nat, hash: K -> int, e: Entry<K, V>)
    : (r: (Cells<K, V>, Outcome))
    requires |cs| > 0
    ensures |r.0| >= |cs| && (r.1 == Done || r.1 == Failed(DuplicateKey) || r.1 == Failed(HashCollision))
    ensures r.1 == Done ==> Lookup(r.0, hash, e.key) == Some(e.value)
  {
    SetHome(Grow(cs, count, hash), hash, e)
  }

  /** Storing e in its home cell, which is empty or holds e's key: every
      entry stays at home, e's lookup yields its value, no other lookup
      changes, and the occupancy grows by one iff the key was new. */
  lemma StoreCorrect<K, V>(cs: Cells<K, V>, hash: K -> int, e: Entry<K, V>)
    requires |cs| > 0 && Placed(cs, hash)
    requires var h := Home(hash(e.key), |cs|); cs[h].None? || cs[h].value.key == e.key
    ensures var cs' := cs[Home(hash(e.key), |cs|) := Some(e)];
            && Placed(cs', hash)
            && Lookup(cs', hash, e.key) == Some(e.value)
            && (forall k :: k != e.key ==> Lookup(cs', hash, k) == Lookup(cs, hash, k))
            && Occupancy(cs') == Occupancy(cs) + (if Lookup(cs, hash, e.key).None? then 1 else 0)
  {
    var h := Home(hash(e.key), |cs|);
    OccupancyUpdate(cs, h, Some(e));
  }

  /** Add: the outcome is Done or a hash collision. It is Done exactly when
      the key's home cell after the resize check is free or holds the key,
      so a collision happens only for a key not yet present; on Done the key's lookup yields the new
      value and the count grows iff the key was new; on a collision the
      entries keep their lookups and the count; every entry stays at home
      and no other key's lookup changes. */
  lemma AddCorrect<K, V>(cs: Cells<K, V>, count: nat, hash: K -> int, e: Entry<K, V>)
    requires Placed(cs, hash) && |cs| > 0
    ensures var (cs', r) := AddSpec(cs, count, hash, e);
            && Placed(cs', hash)
            && (r == Done || r == Failed(HashCollision))
            && (Lookup(cs, hash, e.key).Some? ==> r == Done)
            && (r == Done ==> Lookup(cs', hash, e.key) == Some(e.value))
            && (r != Done ==> Lookup(cs', hash, e.key) == None)
            && (forall k :: k != e.key ==> Lookup(cs', hash, k) == Lookup(cs, hash, k))
            && Occupancy(cs') == Occupancy(cs) + (if r == Done && Lookup(cs, hash, e.key).None? then 1 else 0)
    ensures var g := Grow(cs, count, hash);
            var h := Home(hash(e.key), |g|);
            AddSpec(cs, count, hash, e).1 == Done <==> g[h].None? || g[h].value.key == e.key
  {
    var grown := Grow(cs, count, hash);
    if OverThreeQuarters(count, |cs|) {
      RehashCorrect(cs, hash);
      forall k ensures Lookup(grown, hash, k) == Lookup(cs, hash, k) {
        RehashLookup(cs, hash, k);
      }
    }
    var h := Home(hash(e.key), |grown|);
    if grown[h].None? || grown[h].value.key == e.key {
      StoreCorrect(grown, hash, e);
    }
  }

  /** The indexer set: Done exactly when the key's home cell is free after
      the resize check, and then as Add; a present key fails with
      DuplicateKey, and a different key in the home cell with a hash
      collision; any failure keeps every lookup and the count. */
  lemma SetCorrect<K, V>(cs: Cells<K, V>, count: nat, hash: K -> int, e: Entry<K, V>)
    requires Placed(cs, hash) && |cs| > 0
    ensures var (cs', r) := SetSpec(cs, count, hash, e);
            && Placed(cs', hash)
            && (Lookup(cs, hash, e.key).Some? ==> r == Failed(DuplicateKey))
            && (r == Done ==> Lookup(cs, hash, e.key).None? && Lookup(cs', hash, e.key) == Some(e.value))
            && (r == Done ==> Occupancy(cs') == Occupancy(cs) + 1)
            && (r != Done ==> Occupancy(cs') == Occupancy(cs) && (r == Failed(DuplicateKey) || r == Failed(HashCollision)))
            && (forall k :: k != e.key || r != Done ==> Lookup(cs', hash, k) == Lookup(cs, hash, k))
    ensures var g := Grow(cs, count, hash);
            var h := Home(hash(e.key), |g|);
            && (SetSpec(cs, count, hash, e).1 == Done <==> g[h].None?)
            && (SetSpec(cs, count, hash, e).1 == Failed(HashCollision) <==> g[h].Some? && g[h].value.key != e.key)
  {
    var grown := Grow(cs, count, hash);
    if OverThreeQuarters(count, |cs|) {
      RehashCorrect(cs, hash);
      forall k ensures Lookup(grown, hash, k) == Lookup(cs, hash, k) {
        RehashLookup(cs, hash, k);
      }
    }
    var h := Home(hash(e.key), |grown|);
    if grown[h].None? {
      StoreCorrect(grown, hash, e);
    }
  }

  // ---------------------------------------------------------------------
  // Remove

  /** Remove(key): the home cell is emptied when it holds key. */
  function RemoveSpec<K(==), V>(cs: Cells<K, V>, hash: K -> int, key: K): (r: (Cells<K, V>, bool))
    requires |cs| > 0
    ensures |r.0| == |cs| && (r.1 <==> Lookup(cs, hash, key).Some?)
    ensures Lookup(r.0, hash, key) == None
    ensures !r.1 ==> r.0 == cs
  {
    var h := Home(hash(key), |cs|);
    if cs[h].Some? && cs[h].value.key == key then (cs[h := None], true) else (cs, false)
  }

  /** Remove answers true iff the key was present; the key is absent after,
      the count drops by one iff it answered true, every entry stays at
      home and no other key's lookup changes. */
  lemma RemoveCorrect<K, V>(cs: Cells<K, V>, hash: K -> int, key: K)
    requires Placed(cs, hash) && |cs| > 0
    ensures var (cs', r) := RemoveSpec(cs, hash, key);
            && Placed(cs', hash)
            && (r <==> Lookup(cs, hash, key).Some?)
            && Lookup(cs', hash, key) == None
            && (forall k :: k != key ==> Lookup(cs', hash, k) == Lookup(cs, hash, k))
            && Occupancy(cs') == Occupancy(cs) - (if r then 1 else 0)
  {
    var h := Home(hash(key), |cs|);
    OccupancyUpdate(cs, h, None);
  }
}
