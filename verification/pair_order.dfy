/** The order in which the comparison list visits pairs of player positions.

    For a list of n players the comparisons are generated row by row: row i pairs
    position i with every later position j, j ascending, and the rows come in
    ascending i. This module describes that enumeration on positions alone, so that
    the properties of the comparison list (how many, which, in what order) can be
    stated independently of the day values the players carry.
 */
module PairOrder {

  /** A pair of player positions; a comparison links the player at i to the one at j. */
  datatype IndexPair = IndexPair(i: nat, j: nat)

  /** Lexicographic order on position pairs: by first position, then by second. */
  predicate Before(p: IndexPair, q: IndexPair) {
    p.i < q.i || (p.i == q.i && p.j < q.j)
  }

  /** The position pair is one a list of n players can produce: i strictly before j. */
  predicate Linked(p: IndexPair, n: nat) {
    p.i < p.j < n
  }

  /** Row lo of the enumeration: (lo, lo+1), (lo, lo+2), ..., (lo, n-1). */
  function IndexRow(lo: nat, n: nat): seq<IndexPair>
    requires lo < n
  {
    seq(n - lo - 1, k requires 0 <= k < n - lo - 1 => IndexPair(lo, lo + 1 + k))
  }

  /** Rows lo, lo+1, ..., n-1 of the enumeration, in that order. */
  function IndexPairsFrom(lo: nat, n: nat): seq<IndexPair>
    decreases n - lo
  {
    if lo >= n then [] else IndexRow(lo, n) + IndexPairsFrom(lo + 1, n)
  }

  /** Every pair of positions of a list of n players, in generation order. */
  function IndexPairs(n: nat): seq<IndexPair> {
    IndexPairsFrom(0, n)
  }

  /** How many pairs the rows before row i contribute, in a list of n players. */
  function RowStart(n: nat, i: nat): nat
    requires i <= n
  {
    if i == 0 then 0 else RowStart(n, i - 1) + (n - i)
  }

  /** The place of the pair (i, j) in the generation order. */
  function Rank(n: nat, i: nat, j: nat): nat
    requires i < j <= n
  {
    RowStart(n, i) + (j - i - 1)
  }

  /** The rows before row i hold i*(2n-i-1)/2 pairs; in particular all n rows hold n(n-1)/2. */
  lemma {:induction false} RowStartClosedForm(n: nat, i: nat)
    requires i <= n
    ensures 2 * RowStart(n, i) == i * (2 * n - i - 1)
    ensures RowStart(n, i) == i * (2 * n - i - 1) / 2
  {
    if i > 0 {
      RowStartClosedForm(n, i - 1);
      assert 2 * RowStart(n, i) == (i - 1) * (2 * n - i) + 2 * (n - i);
      assert (i - 1) * (2 * n - i) + 2 * (n - i) == i * (2 * n - i - 1);
    }
  }

  lemma {:induction false} LengthFrom(lo: nat, n: nat)
    requires lo <= n
    ensures |IndexPairsFrom(lo, n)| == RowStart(n, n) - RowStart(n, lo)
    decreases n - lo
  {
    if lo < n {
      LengthFrom(lo + 1, n);
      RowStartStep(n, lo);
      RowStartMonotone(n, lo + 1, n);
    }
  }

  lemma RowStartStep(n: nat, lo: nat)
    requires lo < n
    ensures RowStart(n, lo + 1) == RowStart(n, lo) + (n - lo - 1)
  {
  }

  lemma {:induction false} RowStartMonotone(n: nat, a: nat, b: nat)
    requires a <= b <= n
    ensures RowStart(n, a) <= RowStart(n, b)
    decreases b - a
  {
    if a < b {
      RowStartMonotone(n, a, b - 1);
    }
  }

  lemma {:induction false} BoundsFrom(lo: nat, n: nat)
    ensures forall k :: 0 <= k < |IndexPairsFrom(lo, n)| ==>
              lo <= IndexPairsFrom(lo, n)[k].i && Linked(IndexPairsFrom(lo, n)[k], n)
    decreases n - lo
  {
    if lo < n {
      BoundsFrom(lo + 1, n);
    }
  }

  lemma {:induction false} SortedFrom(lo: nat, n: nat)
    ensures forall k, l :: 0 <= k < l < |IndexPairsFrom(lo, n)| ==>
              Before(IndexPairsFrom(lo, n)[k], IndexPairsFrom(lo, n)[l])
    decreases n - lo
  {
    if lo < n {
      SortedFrom(lo + 1, n);
      BoundsFrom(lo + 1, n);
      var row, rest := IndexRow(lo, n), IndexPairsFrom(lo + 1, n);
      forall k, l | 0 <= k < l < |row + rest|
        ensures Before((row + rest)[k], (row + rest)[l])
      {
        if l < |row| {
          assert (row + rest)[k] == row[k] && (row + rest)[l] == row[l];
        } else if k < |row| {
          assert (row + rest)[k] == row[k] && (row + rest)[l] == rest[l - |row|];
        } else {
          assert (row + rest)[k] == rest[k - |row|] && (row + rest)[l] == rest[l - |row|];
        }
      }
    }
  }

  lemma {:induction false} PositionFrom(lo: nat, n: nat, i: nat, j: nat)
    requires lo <= i < j < n
    ensures RowStart(n, lo) <= Rank(n, i, j)
    ensures Rank(n, i, j) - RowStart(n, lo) < |IndexPairsFrom(lo, n)|
    ensures IndexPairsFrom(lo, n)[Rank(n, i, j) - RowStart(n, lo)] == IndexPair(i, j)
    decreases n - lo
  {
    LengthFrom(lo, n);
    RowStartMonotone(n, lo, i);
    RowStartMonotone(n, i + 1, n);
    RowStartStep(n, i);
    var row, rest := IndexRow(lo, n), IndexPairsFrom(lo + 1, n);
    assert IndexPairsFrom(lo, n) == row + rest;
    if i == lo {
      assert row[j - i - 1] == IndexPair(i, j);
    } else {
      PositionFrom(lo + 1, n, i, j);
      RowStartStep(n, lo);
      assert Rank(n, i, j) - RowStart(n, lo) == |row| + (Rank(n, i, j) - RowStart(n, lo + 1));
    }
  }

  /** Generation produces exactly n(n-1)/2 pairs. */
  lemma IndexPairsLength(n: nat)
    ensures |IndexPairs(n)| == n * (n - 1) / 2
  {
    LengthFrom(0, n);
    RowStartClosedForm(n, n);
  }

  /** Soundness: every generated pair links an earlier position to a later one. */
  lemma IndexPairsLinked(n: nat)
    ensures forall k :: 0 <= k < |IndexPairs(n)| ==> Linked(IndexPairs(n)[k], n)
  {
    BoundsFrom(0, n);
  }

  /** Order: the pairs come strictly ascending in lexicographic order. */
  lemma IndexPairsSorted(n: nat)
    ensures forall k, l :: 0 <= k < l < |IndexPairs(n)| ==> Before(IndexPairs(n)[k], IndexPairs(n)[l])
  {
    SortedFrom(0, n);
  }

  /** Completeness: the pair (i, j) with i < j < n sits at place Rank(n, i, j). */
  lemma IndexPairsComplete(n: nat)
    ensures forall i: nat, j: nat :: i < j < n ==>
              Rank(n, i, j) < |IndexPairs(n)| && IndexPairs(n)[Rank(n, i, j)] == IndexPair(i, j)
  {
    forall i: nat, j: nat | i < j < n
      ensures Rank(n, i, j) < |IndexPairs(n)| && IndexPairs(n)[Rank(n, i, j)] == IndexPair(i, j)
    {
      PositionFrom(0, n, i, j);
    }
  }

  /** Exactly once: the pair (i, j) with i < j < n sits at place k if and only if k is its rank. */
  lemma IndexPairsExactlyOnce(n: nat, i: nat, j: nat)
    requires i < j < n
    ensures forall k :: 0 <= k < |IndexPairs(n)| ==> (IndexPairs(n)[k] == IndexPair(i, j) <==> k == Rank(n, i, j))
  {
    IndexPairsComplete(n);
    IndexPairsSorted(n);
    var r := Rank(n, i, j);
    forall k | 0 <= k < |IndexPairs(n)|
      ensures IndexPairs(n)[k] == IndexPair(i, j) <==> k == r
    {
      if k < r {
        assert Before(IndexPairs(n)[k], IndexPairs(n)[r]);
      } else if r < k {
        assert Before(IndexPairs(n)[r], IndexPairs(n)[k]);
      }
    }
  }
}
