/** The probe sequences of the open-addressing table: the secondary hash and
    the index enumerator (GetSecondaryHash and GetIndexEnumerator). */
module Probing {
  import opened Hashing

  /** OpenAddressingStrategy, fixed when the table is constructed. */
  datatype Strategy = LinearProbing | Quadratic | DoubleHashing

  /** Table sizes for which every probe is defined: the home index needs a
      non-zero size and the secondary hash divides by size - 1. */
  predicate Supports(strategy: Strategy, n: nat) {
    n >= 1 && (strategy == DoubleHashing ==> n >= 2)
  }

  /** GetSecondaryHash: 1 + |hash| mod (n - 1), the step of double hashing. */
  function SecondaryHash(h: int, n: nat): (r: nat)
    requires n >= 2
    ensures 1 <= r <= n - 1
  {
    1 + Magnitude(h) % (n - 1)
  }

  /** The index the enumerator yields for attempt t (tryCount). */
  function Probe(strategy: Strategy, h: int, n: nat, t: nat): (r: nat)
    requires Supports(strategy, n)
    ensures r < n
  {
    var index := Home(h, n);
    match strategy
    case LinearProbing => (index + t) % n
    case Quadratic => (index + t * t) % n
    case DoubleHashing => (index + t * SecondaryHash(h, n)) % n
  }

  /** Everything GetIndexEnumerator(key, n) yields, in order: exactly n
      indices, each in [0, n), starting at the home index. */
  function ProbePath(strategy: Strategy, h: int, n: nat): (path: seq<nat>)
    requires Supports(strategy, n)
    ensures |path| == n
    ensures forall t :: 0 <= t < n ==> path[t] < n
    ensures path[0] == Home(h, n)
  {
    ModUnique(Home(h, n), n, 0, Home(h, n));
    seq(n, t requires 0 <= t < n => Probe(strategy, h, n, t))
  }

  /** Linear probing visits every slot: slot x is attempt (x - home) mod n. */
  lemma LinearVisitsEverySlot(h: int, n: nat, x: nat)
    requires n >= 1 && x < n
    ensures exists t :: 0 <= t < n && ProbePath(LinearProbing, h, n)[t] == x
  {
    var home := Home(h, n);
    var t := if x >= home then x - home else x + n - home;
    if x >= home {
      ModUnique(home + t, n, 0, x);
    } else {
      ModUnique(home + t, n, 1, x);
    }
    assert ProbePath(LinearProbing, h, n)[t] == x;
  }

  /** Adding a non-zero step smaller than n always changes a residue mod n. */
  lemma ShiftChangesResidue(a: nat, s: nat, n: nat)
    requires 0 < s < n
    ensures (a + s) % n != a % n
  {
    var q, r := a / n, a % n;
    assert a == q * n + r;
    if r + s < n {
      ModUnique(a + s, n, q, r + s);
    } else {
      assert (q + 1) * n == q * n + n;
      ModUnique(a + s, n, q + 1, r + s - n);
    }
  }

  /** Double hashing never stays on a slot: the step is never 0 mod n, so
      consecutive attempts probe different slots. */
  lemma DoubleHashingMoves(h: int, n: nat, t: nat)
    requires n >= 2 && t + 1 < n
    ensures ProbePath(DoubleHashing, h, n)[t + 1] != ProbePath(DoubleHashing, h, n)[t]
  {
    var s := SecondaryHash(h, n);
    var a := Home(h, n) + t * s;
    assert Home(h, n) + (t + 1) * s == a + s;
    ShiftChangesResidue(a, s, n);
  }

  /** Quadratic probing need not visit every slot: from home 0 in a table of
      size 4 it alternates between slots 0 and 1. */
  lemma QuadraticPathOfFour()
    ensures ProbePath(Quadratic, 0, 4) == [0, 1, 0, 1]
  {
    var p := ProbePath(Quadratic, 0, 4);
    assert p[2] == 4 % 4 == 0;
    assert p[3] == 9 % 4 == 1;
  }
}
