/** The hashing discipline the three tables share: entries, the results of
    their operations, the home index of a key and the load-factor tests. */
module Hashing {

  datatype Option<T> = None | Some(value: T)

  /** The exceptions the tables throw, as values. */
  datatype Error =
    | InvalidKey     // ArgumentException / ArgumentNullException on a null key
    | KeyNotFound    // KeyNotFoundException from the indexer get
    | DuplicateKey   // the duplicate-key check of Add and of the indexer set
    | HashCollision  // "해시 충돌": two keys contend for one slot of the direct table
    | OutOfRange     // ArgumentOutOfRangeException from writing past the end of a list
    | NullReference  // NullReferenceException from a foreach over a bucket never created

  datatype Result<T> = Ok(value: T) | Err(error: Error)

  /** Outcome of an operation that returns nothing but may throw. */
  datatype Outcome = Done | Failed(error: Error)

  /** KeyValuePair<TKey, TValue>. */
  datatype Entry<K, V> = Entry(key: K, value: V)

  const DefaultCapacity: nat := 16

  /** The keys of a sequence of entries, in order. */
  function KeysOf<K, V>(es: seq<Entry<K, V>>): (r: seq<K>)
    ensures |r| == |es| && forall i :: 0 <= i < |es| ==> r[i] == es[i].key
  {
    seq(|es|, i requires 0 <= i < |es| => es[i].key)
  }

  /** The values of a sequence of entries, in order. */
  function ValuesOf<K, V>(es: seq<Entry<K, V>>): (r: seq<V>)
    ensures |r| == |es| && forall i :: 0 <= i < |es| ==> r[i] == es[i].value
  {
    seq(|es|, i requires 0 <= i < |es| => es[i].value)
  }

  lemma KeysValuesOfAppend<K, V>(es: seq<Entry<K, V>>, more: seq<Entry<K, V>>)
    ensures KeysOf(es + more) == KeysOf(es) + KeysOf(more)
    ensures ValuesOf(es + more) == ValuesOf(es) + ValuesOf(more)
  {
  }

  /** Mathf.Abs applied to a hash code. */
  function Magnitude(h: int): (r: nat)
    ensures r == h || r == -h
  {
    if h < 0 then -h else h
  }

  /** The home index |hash| mod size of a hash code. */
  function Home(h: int, size: nat): (r: nat)
    requires size > 0
    ensures r < size
  {
    Magnitude(h) % size
  }

  /** GetIndex(key, s): a null key is rejected, any other key maps to its
      home index for the table size s. */
  function GetIndex<K>(key: Option<K>, hash: K -> int, s: nat): (r: Result<nat>)
    requires s > 0
    ensures key.None? <==> r == Err(InvalidKey)
    ensures r.Ok? ==> r.value < s && r.value == Home(hash(key.value), s)
  {
    match key
    case None => Err(InvalidKey)
    case Some(k) => Ok(Home(hash(k), s))
  }

  /** GetIndex(key, s) as the chaining and direct tables write it: s is
      ignored and the index is taken for the current size. */
  function GetIndexAsWritten<K>(key: Option<K>, hash: K -> int, s: nat, size: nat): (r: Result<nat>)
    requires size > 0
    ensures r == GetIndex(key, hash, size)
  {
    match key
    case None => Err(InvalidKey)
    case Some(k) => Ok(Home(hash(k), size))
  }

  /** KeyValuePair.Equals(object) applied to a key, as ContainsKey and
      Remove of the chaining and direct tables do: a pair is never equal to
      an object of another type. This holds for every key type other than
      object and ValueType, where the key itself could be a boxed pair. */
  predicate PairEqualsKey<K, V>(e: Entry<K, V>, key: K) {
    false
  }

  /** (float)count / size > 0.75f, on exact integers. */
  predicate OverThreeQuarters(count: nat, size: nat) {
    count * 4 > size * 3
  }

  /** (float)count / size > 0.6f, on exact integers. */
  predicate OverSixTenths(count: nat, size: nat) {
    count * 5 > size * 3
  }

  lemma MulAtLeast(d: int, n: nat)
    requires d >= 1
    ensures d * n >= n
  {
  }

  /** If m is q * n + r with r < n, then r is m mod n. */
  lemma ModUnique(m: nat, n: nat, q: nat, r: nat)
    requires n > 0 && r < n && m == q * n + r
    ensures m % n == r
  {
    var q', r' := m / n, m % n;
    assert m == q' * n + r';
    if q' < q {
      assert q * n == (q - q') * n + q' * n;
      MulAtLeast(q - q', n);
      assert false;
    } else if q < q' {
      assert q' * n == (q' - q) * n + q * n;
      MulAtLeast(q' - q, n);
      assert false;
    }
  }

  /** Doubling the size moves a home index either nowhere or exactly one old
      size further, so the new home index is congruent to the old one. */
  lemma HomeAfterDoubling(h: int, n: nat)
    requires n > 0
    ensures Home(h, 2 * n) == Home(h, n) || Home(h, 2 * n) == Home(h, n) + n
    ensures Home(h, 2 * n) < n ==> Home(h, 2 * n) == Home(h, n)
    ensures Home(h, 2 * n) >= n ==> Home(h, 2 * n) == Home(h, n) + n
  {
    ModDoubling(Magnitude(h), n);
  }

  lemma ModDoubling(m: nat, n: nat)
    requires n > 0
    ensures m % (2 * n) < n ==> m % (2 * n) == m % n
    ensures m % (2 * n) >= n ==> m % (2 * n) == m % n + n
  {
    var q, r := m / (2 * n), m % (2 * n);
    assert m == q * (2 * n) + r;
    Regroup(q, n);
    if r < n {
      ModUnique(m, n, 2 * q, r);
    } else {
      ModUnique(m, n, 2 * q + 1, r - n);
    }
  }

  lemma Regroup(q: nat, n: nat)
    ensures q * (2 * n) == (2 * q) * n
    ensures (2 * q + 1) * n == (2 * q) * n + n
  {
  }

  /** Number of set flags: the number of occupied slots of a slot array. */
  function CountTrue(flags: seq<bool>): (r: nat)
    ensures r <= |flags|
    ensures r < |flags| ==> exists x :: 0 <= x < |flags| && !flags[x]
  {
    if flags == [] then 0
    else
      var init := flags[..|flags| - 1];
      assert forall x :: 0 <= x < |init| ==> init[x] == flags[x];
      CountTrue(init) + (if flags[|flags| - 1] then 1 else 0)
  }

  lemma CountTrueStep(flags: seq<bool>, i: nat)
    requires i < |flags|
    ensures CountTrue(flags[..i + 1]) == CountTrue(flags[..i]) + (if flags[i] then 1 else 0)
  {
    assert flags[..i + 1][..i] == flags[..i];
  }

  lemma {:induction false} CountTrueUpdate(flags: seq<bool>, x: nat, b: bool)
    requires x < |flags|
    ensures CountTrue(flags[x := b]) + (if flags[x] then 1 else 0)
         == CountTrue(flags) + (if b then 1 else 0)
  {
    var n := |flags|;
    var f' := flags[x := b];
    if x < n - 1 {
      assert f'[..n - 1] == flags[..n - 1][x := b];
      CountTrueUpdate(flags[..n - 1], x, b);
    } else {
      assert f'[..n - 1] == flags[..n - 1];
    }
  }

  lemma {:induction false} CountTrueNone(flags: seq<bool>)
    requires forall x :: 0 <= x < |flags| ==> !flags[x]
    ensures CountTrue(flags) == 0
  {
    if flags != [] {
      CountTrueNone(flags[..|flags| - 1]);
    }
  }
}
