/**
 * The order in which `generate_room_relation` visits room pairs:
 * `for i in range(n): for j in range(i + 1, n)`, i.e. all pairs i < j in
 * lexicographic order.
 */
module PairOrder {

  /** The pairs visited by the inner loop for a fixed i. */
  function Row(i: nat, n: nat): seq<(nat, nat)> {
    seq(if i < n then n - i - 1 else 0, k => (i, i + 1 + k))
  }

  /** The pairs visited by the first i iterations of the outer loop. */
  function PairsBelow(i: nat, n: nat): seq<(nat, nat)> {
    if i == 0 then [] else PairsBelow(i - 1, n) + Row(i - 1, n)
  }

  /** All pairs visited for n rooms. */
  function AllPairs(n: nat): seq<(nat, nat)> {
    PairsBelow(n, n)
  }

  /** Number of pairs visited by the first i rows: row r has n - r - 1 pairs. */
  function BelowCount(i: nat, n: nat): nat
    requires i <= n
  {
    if i == 0 then 0 else BelowCount(i - 1, n) + (n - i)
  }

  /** Position of pair (i, j) in the visiting order. */
  function PairIndex(i: nat, j: nat, n: nat): nat
    requires i < j < n
  {
    BelowCount(i, n) + (j - i - 1)
  }

  /** The pairs visited before (i, j): the first i rows and the start of row i. */
  function Visited(i: nat, j: nat, n: nat): seq<(nat, nat)>
    requires i < j <= n
  {
    PairsBelow(i, n) + Row(i, n)[..j - i - 1]
  }

  /** Row i starts right after the first i rows and ends where row i + 1 starts; each step visits (i, j). */
  lemma VisitedSteps(i: nat, j: nat, n: nat)
    requires i < j <= n
    ensures Visited(i, i + 1, n) == PairsBelow(i, n)
    ensures Visited(i, n, n) == PairsBelow(i + 1, n)
    ensures j < n ==> Visited(i, j + 1, n) == Visited(i, j, n) + [(i, j)]
  {
    assert Row(i, n)[..0] == [];
    assert Row(i, n)[..n - i - 1] == Row(i, n);
    if j < n {
      assert Row(i, n)[..j - i] == Row(i, n)[..j - i - 1] + [(i, j)];
    }
  }

  predicate LexLess(p: (nat, nat), q: (nat, nat)) {
    p.0 < q.0 || (p.0 == q.0 && p.1 < q.1)
  }

  /** The first i rows hold only pairs a < b < n with a < i. */
  lemma {:induction false} PairsBelowMembers(i: nat, n: nat)
    ensures forall k :: 0 <= k < |PairsBelow(i, n)| ==>
      PairsBelow(i, n)[k].0 < i && PairsBelow(i, n)[k].0 < PairsBelow(i, n)[k].1 < n
  {
    if i > 0 {
      PairsBelowMembers(i - 1, n);
      var p := PairsBelow(i - 1, n);
      var r := Row(i - 1, n);
      assert forall k :: 0 <= k < |r| ==> r[k].0 == i - 1 && i - 1 < r[k].1 < n;
      forall k | 0 <= k < |PairsBelow(i, n)|
        ensures PairsBelow(i, n)[k].0 < i && PairsBelow(i, n)[k].0 < PairsBelow(i, n)[k].1 < n
      {
        if k < |p| {
          assert PairsBelow(i, n)[k] == p[k];
        } else {
          assert PairsBelow(i, n)[k] == r[k - |p|];
        }
      }
    }
  }

  /** The first i rows hold BelowCount(i, n) pairs, and twice that is i * (2n - i - 1). */
  lemma {:induction false} PairsBelowLength(i: nat, n: nat)
    requires i <= n
    ensures |PairsBelow(i, n)| == BelowCount(i, n)
    ensures 2 * BelowCount(i, n) == i * (2 * n - i - 1)
  {
    if i > 0 {
      PairsBelowLength(i - 1, n);
      BelowCountStep(i, n);
    }
  }

  lemma BelowCountStep(i: nat, n: nat)
    requires 0 < i <= n
    requires 2 * BelowCount(i - 1, n) == (i - 1) * (2 * n - (i - 1) - 1)
    ensures 2 * BelowCount(i, n) == i * (2 * n - i - 1)
  {
    var m := 2 * n - i;
    assert (i - 1) * m == i * m - m;
    assert i * (m - 1) == i * m - i;
  }

  /** n rooms give n(n-1)/2 pairs, none when n <= 1. */
  lemma PairCount(n: nat)
    ensures |AllPairs(n)| == n * (n - 1) / 2
  {
    PairsBelowLength(n, n);
    assert n * (2 * n - n - 1) == n * (n - 1);
  }

  /** The rows already visited are a prefix of the rows visited later. */
  lemma {:induction false} PairsBelowPrefix(i: nat, i': nat, n: nat)
    requires i <= i'
    ensures PairsBelow(i, n) <= PairsBelow(i', n)
    decreases i' - i
  {
    if i < i' {
      PairsBelowPrefix(i, i' - 1, n);
    }
  }

  /** Pair (i, j) sits at position PairIndex(i, j, n) in the visiting order. */
  lemma PairAt(i: nat, j: nat, n: nat)
    requires i < j < n
    ensures PairIndex(i, j, n) < |AllPairs(n)|
    ensures AllPairs(n)[PairIndex(i, j, n)] == (i, j)
  {
    PairsBelowPrefix(i + 1, n, n);
    PairsBelowLength(i, n);
    PairsBelowLength(i + 1, n);
    var below := PairsBelow(i + 1, n);
    assert below == PairsBelow(i, n) + Row(i, n);
    assert below[PairIndex(i, j, n)] == Row(i, n)[j - i - 1];
  }

  /** Visiting order is strictly increasing in lexicographic order, so no pair repeats. */
  lemma {:induction false} PairsBelowSorted(i: nat, n: nat)
    ensures forall a, b :: 0 <= a < b < |PairsBelow(i, n)| ==> LexLess(PairsBelow(i, n)[a], PairsBelow(i, n)[b])
  {
    if i > 0 {
      PairsBelowSorted(i - 1, n);
      PairsBelowMembers(i - 1, n);
      var p := PairsBelow(i - 1, n);
      var r := Row(i - 1, n);
      var s := PairsBelow(i, n);
      forall a, b | 0 <= a < b < |s| ensures LexLess(s[a], s[b]) {
        if b < |p| {
          assert s[a] == p[a] && s[b] == p[b];
        } else if a < |p| {
          assert s[a] == p[a] && s[b] == r[b - |p|];
        } else {
          assert s[a] == r[a - |p|] && s[b] == r[b - |p|];
        }
      }
    }
  }

  /** All pairs i < j < n, each exactly once, in lexicographic order. */
  lemma AllPairsCharacterized(n: nat)
    ensures forall k :: 0 <= k < |AllPairs(n)| ==> AllPairs(n)[k].0 < AllPairs(n)[k].1 < n
    ensures forall i: nat, j: nat {:trigger PairIndex(i, j, n)} :: i < j < n ==>
      PairIndex(i, j, n) < |AllPairs(n)| && AllPairs(n)[PairIndex(i, j, n)] == (i, j)
    ensures forall a, b :: 0 <= a < b < |AllPairs(n)| ==> LexLess(AllPairs(n)[a], AllPairs(n)[b])
  {
    PairsBelowMembers(n, n);
    PairsBelowSorted(n, n);
    forall i: nat, j: nat | i < j < n
      ensures PairIndex(i, j, n) < |AllPairs(n)| && AllPairs(n)[PairIndex(i, j, n)] == (i, j)
    {
      PairAt(i, j, n);
    }
  }

  /** Strict sortedness makes every pair occur at exactly one position. */
  lemma PairPositionUnique(n: nat, a: nat, b: nat)
    requires a < |AllPairs(n)| && b < |AllPairs(n)|
    ensures AllPairs(n)[a] == AllPairs(n)[b] <==> a == b
  {
    PairsBelowSorted(n, n);
  }
}
