/** Capacity policy of the educational dictionary: a fixed ascending table of
    primes, the smallest usable capacity for a requested minimum, and the next
    capacity when the table grows. Capacities are unbounded integers here. */
module HashHelpers {

  /** The prime table, in the order the dictionary scans it. It is written as
      six rows of twelve so that the verifier can index into it; `Primes` is
      their concatenation, the 72 entries of the table in order. */
  const PrimesRow0: seq<int> := [3, 7, 11, 17, 23, 29, 37, 47, 59, 71, 89, 107]
  const PrimesRow1: seq<int> := [131, 163, 197, 239, 293, 353, 431, 521, 631, 761, 919, 1103]
  const PrimesRow2: seq<int> := [1327, 1597, 1931, 2333, 2801, 3371, 4049, 4861, 5839, 7013, 8419, 10103]
  const PrimesRow3: seq<int> := [12143, 14591, 17519, 21023, 25229, 30293, 36353, 43627, 52361, 62851, 75431, 90523]
  const PrimesRow4: seq<int> := [108631, 130363, 156437, 187751, 225307, 270371, 324449, 389357, 467237, 560689, 672827, 807403]
  const PrimesRow5: seq<int> := [968897, 1162687, 1395263, 1674319, 2009191, 2411033, 2893249, 3471899, 4166287, 4999559, 5999471, 7199369]
  const Primes: seq<int> :=
    PrimesRow0 + PrimesRow1 + PrimesRow2 + PrimesRow3 + PrimesRow4 + PrimesRow5

  /** Strictly ascending, checked one neighbouring pair at a time. */
  predicate Ascending(s: seq<int>)
  {
    forall i :: 0 <= i < |s| - 1 ==> s[i] < s[i + 1]
  }

  /** Index of the first element of `ps` (from `from` on) that is at least
      `min`, or `|ps|` when there is none: the scan of the foreach loop. */
  function FirstIndexAtLeast(ps: seq<int>, min: int, from: nat): (i: nat)
    requires from <= |ps|
    ensures from <= i <= |ps|
    ensures i < |ps| ==> ps[i] >= min
    ensures forall j :: from <= j < i ==> ps[j] < min
    decreases |ps| - from
  {
    if from == |ps| then |ps|
    else if ps[from] >= min then from
    else FirstIndexAtLeast(ps, min, from + 1)
  }

  /** In a strictly ascending sequence every earlier element is smaller. */
  lemma {:induction false} AscendingOrdered(s: seq<int>, i: nat, j: nat)
    requires Ascending(s)
    requires i < j < |s|
    ensures s[i] < s[j]
    decreases j - i
  {
    if i + 1 < j {
      AscendingOrdered(s, i + 1, j);
    }
  }

  /** Two strictly ascending sequences joined in order stay ascending. */
  lemma AscendingAppend(a: seq<int>, b: seq<int>)
    requires Ascending(a) && Ascending(b)
    requires |a| > 0 && |b| > 0 ==> a[|a| - 1] < b[0]
    ensures Ascending(a + b)
  {
  }

  /** The prime table is strictly ascending, so its first entry at least
      `min` is also its smallest such entry. */
  lemma PrimesAscending()
    ensures |Primes| == 72 && Ascending(Primes)
  {
    assert Ascending(PrimesRow0);
    assert Ascending(PrimesRow1);
    assert Ascending(PrimesRow2);
    assert Ascending(PrimesRow3);
    assert Ascending(PrimesRow4);
    assert Ascending(PrimesRow5);
    AscendingAppend(PrimesRow0, PrimesRow1);
    AscendingAppend(PrimesRow0 + PrimesRow1, PrimesRow2);
    AscendingAppend(PrimesRow0 + PrimesRow1 + PrimesRow2, PrimesRow3);
    AscendingAppend(PrimesRow0 + PrimesRow1 + PrimesRow2 + PrimesRow3, PrimesRow4);
    AscendingAppend(PrimesRow0 + PrimesRow1 + PrimesRow2 + PrimesRow3 + PrimesRow4, PrimesRow5);
  }

  /** The first prime of the table that is at least `min`, or `min` itself
      when the table holds none. */
  function GetPrime(min: int): (r: int)
    ensures r >= min
    ensures r == min || r in Primes
    ensures (forall p :: p in Primes ==> p < min) ==> r == min
    ensures (exists p :: p in Primes && p >= min) ==> r in Primes
    ensures forall p :: p in Primes && p >= min ==> r <= p
  {
    var i := FirstIndexAtLeast(Primes, min, 0);
    PrimesAscending();
    forall j | 0 <= j < |Primes| && Primes[j] >= min
      ensures i < |Primes| && Primes[i] <= Primes[j]
    {
      if i < j {
        AscendingOrdered(Primes, i, j);
      }
    }
    if i < |Primes| then Primes[i] else min
  }

  /** The capacity the dictionary grows to from `oldSize`: at least double. */
  function ExpandPrime(oldSize: int): (r: int)
    ensures r >= 2 * oldSize
    ensures r == 2 * oldSize || r in Primes
    ensures (exists p :: p in Primes && p >= 2 * oldSize) ==> r in Primes
    ensures forall p :: p in Primes && p >= 2 * oldSize ==> r <= p
  {
    GetPrime(2 * oldSize)
  }

  /** A new dictionary starts at capacity 3, and its first growth goes to 7. */
  lemma InitialCapacities()
    ensures GetPrime(0) == 3
    ensures ExpandPrime(3) == 7
  {
    assert FirstIndexAtLeast(Primes, 6, 0) == 1 by {
      assert Primes[0] < 6 <= Primes[1];
    }
  }
}
