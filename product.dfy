/**
 * The enumeration performed by `Plan.bt` / `Plan.get_all_paths`
 * (src/plan.py): the Cartesian product of a list of lists, first list
 * varying slowest.
 */
module Product {

  /** Every sequence of ts with pre in front. */
  function Prefixed<T>(pre: seq<T>, ts: seq<seq<T>>): (r: seq<seq<T>>)
    ensures |r| == |ts|
  {
    seq(|ts|, k requires 0 <= k < |ts| => pre + ts[k])
  }

  /** For each x of firsts in order, [x] in front of every tail. */
  function Expand<T>(firsts: seq<T>, tails: seq<seq<T>>): seq<seq<T>> {
    if firsts == [] then [] else Expand(firsts[..|firsts| - 1], tails) + Prefixed([firsts[|firsts| - 1]], tails)
  }

  function CartesianProduct<T>(lists: seq<seq<T>>): seq<seq<T>>
    decreases |lists|
  {
    if lists == [] then [[]] else Expand(lists[0], CartesianProduct(lists[1..]))
  }

  /** The product of the list lengths. */
  function Size<T>(lists: seq<seq<T>>): nat
    decreases |lists|
  {
    if lists == [] then 1 else |lists[0]| * Size(lists[1..])
  }

  lemma MulMonotonic(x: nat, y: nat, m: nat)
    requires x <= y
    ensures x * m <= y * m
  {
    var d := y - x;
    assert y * m == x * m + d * m;
  }

  /** Splitting k < f * m into a block number below f and an offset below m. */
  lemma DivBelow(k: nat, f: nat, m: nat)
    requires k < f * m
    ensures m > 0 && k / m < f && k % m < m && k == (k / m) * m + k % m
  {
    if k / m >= f {
      MulMonotonic(f, k / m, m);
    }
  }

  lemma PrefixedAppend<T>(pre: seq<T>, a: seq<seq<T>>, b: seq<seq<T>>)
    ensures Prefixed(pre, a + b) == Prefixed(pre, a) + Prefixed(pre, b)
  {
    assert forall k :: 0 <= k < |a| + |b| ==> Prefixed(pre, a + b)[k] == (Prefixed(pre, a) + Prefixed(pre, b))[k];
  }

  lemma PrefixedPrefixed<T>(pre: seq<T>, q: seq<T>, ts: seq<seq<T>>)
    ensures Prefixed(pre, Prefixed(q, ts)) == Prefixed(pre + q, ts)
  {
    assert forall k :: 0 <= k < |ts| ==> Prefixed(pre, Prefixed(q, ts))[k] == Prefixed(pre + q, ts)[k];
  }

  /** One more first element: its completions, with pre in front, follow those of the earlier ones. */
  lemma PrefixedExpandSnoc<T>(pre: seq<T>, firsts: seq<T>, tails: seq<seq<T>>, q: nat)
    requires q < |firsts|
    ensures Prefixed(pre, Expand(firsts[..q + 1], tails)) ==
      Prefixed(pre, Expand(firsts[..q], tails)) + Prefixed(pre + [firsts[q]], tails)
  {
    assert firsts[..q + 1][..q] == firsts[..q];
    PrefixedPrefixed(pre, [firsts[q]], tails);
    PrefixedAppend(pre, Expand(firsts[..q], tails), Prefixed([firsts[q]], tails));
  }

  lemma {:induction false} ExpandLength<T>(firsts: seq<T>, tails: seq<seq<T>>)
    ensures |Expand(firsts, tails)| == |firsts| * |tails|
  {
    if firsts != [] {
      ExpandLength(firsts[..|firsts| - 1], tails);
      assert |Expand(firsts, tails)| == (|firsts| - 1) * |tails| + |tails|;
    }
  }

  /** Position a * |tails| + b of Expand holds firsts[a] in front of tails[b]. */
  lemma {:induction false} ExpandAt<T>(firsts: seq<T>, tails: seq<seq<T>>, a: nat, b: nat)
    requires a < |firsts| && b < |tails|
    ensures a * |tails| + b < |Expand(firsts, tails)|
    ensures Expand(firsts, tails)[a * |tails| + b] == [firsts[a]] + tails[b]
  {
    var front := firsts[..|firsts| - 1];
    ExpandLength(front, tails);
    ExpandLength(firsts, tails);
    var m := |tails|;
    if a < |firsts| - 1 {
      ExpandAt(front, tails, a, b);
      MulMonotonic(a + 1, |firsts| - 1, m);
      assert (a + 1) * m == a * m + m;
    } else {
      assert a * m + b - |Expand(front, tails)| == b;
    }
  }

  lemma {:induction false} ProductSize<T>(lists: seq<seq<T>>)
    ensures |CartesianProduct(lists)| == Size(lists)
    decreases |lists|
  {
    if lists != [] {
      ProductSize(lists[1..]);
      ExpandLength(lists[0], CartesianProduct(lists[1..]));
    }
  }

  /** An index vector that picks one element from each list. */
  ghost predicate ValidChoice<T>(lists: seq<seq<T>>, ix: seq<nat>) {
    |ix| == |lists| && forall k :: 0 <= k < |ix| ==> ix[k] < |lists[k]|
  }

  function Pick<T>(lists: seq<seq<T>>, ix: seq<nat>): seq<T>
    requires ValidChoice(lists, ix)
  {
    seq(|ix|, k requires 0 <= k < |ix| => lists[k][ix[k]])
  }

  /** Mixed-radix value of an index vector, first index most significant. */
  function Rank<T>(lists: seq<seq<T>>, ix: seq<nat>): nat
    requires |ix| == |lists|
    decreases |lists|
  {
    if lists == [] then 0 else ix[0] * Size(lists[1..]) + Rank(lists[1..], ix[1..])
  }

  lemma {:induction false} RankBound<T>(lists: seq<seq<T>>, ix: seq<nat>)
    requires ValidChoice(lists, ix)
    ensures Rank(lists, ix) < Size(lists)
    decreases |lists|
  {
    if lists != [] {
      assert ValidChoice(lists[1..], ix[1..]);
      RankBound(lists[1..], ix[1..]);
      var m := Size(lists[1..]);
      MulMonotonic(ix[0] + 1, |lists[0]|, m);
      assert (ix[0] + 1) * m == ix[0] * m + m;
    }
  }

  /** The product holds the choice ix at position Rank(ix): its order is lexicographic in the choices. */
  lemma {:induction false} ProductAt<T>(lists: seq<seq<T>>, ix: seq<nat>)
    requires ValidChoice(lists, ix)
    ensures Rank(lists, ix) < |CartesianProduct(lists)|
    ensures CartesianProduct(lists)[Rank(lists, ix)] == Pick(lists, ix)
    decreases |lists|
  {
    ProductSize(lists);
    RankBound(lists, ix);
    if lists != [] {
      var rest := lists[1..];
      assert ValidChoice(rest, ix[1..]);
      ProductAt(rest, ix[1..]);
      ProductSize(rest);
      ExpandAt(lists[0], CartesianProduct(rest), ix[0], Rank(rest, ix[1..]));
      assert Pick(lists, ix) == [lists[0][ix[0]]] + Pick(rest, ix[1..]);
    }
  }

  ghost predicate LexBefore(ix: seq<nat>, jx: seq<nat>) {
    exists m :: 0 <= m < |ix| && m < |jx| && ix[..m] == jx[..m] && ix[m] < jx[m]
  }

  /** Choices that come first lexicographically sit earlier in the product. */
  lemma {:induction false} RankRespectsLex<T>(lists: seq<seq<T>>, ix: seq<nat>, jx: seq<nat>, m: nat)
    requires ValidChoice(lists, ix) && ValidChoice(lists, jx)
    requires m < |ix| && ix[..m] == jx[..m] && ix[m] < jx[m]
    ensures Rank(lists, ix) < Rank(lists, jx)
    decreases |lists|
  {
    var rest := lists[1..];
    assert ValidChoice(rest, ix[1..]) && ValidChoice(rest, jx[1..]);
    if m == 0 {
      RankBound(rest, ix[1..]);
      HeadDecides(ix[0], jx[0], Rank(rest, ix[1..]), Rank(rest, jx[1..]), Size(rest));
    } else {
      LexTail(ix, jx, m);
      RankRespectsLex(rest, ix[1..], jx[1..], m - 1);
    }
  }

  /** A smaller leading digit wins whatever the lower digits are. */
  lemma HeadDecides(a: nat, b: nat, r: nat, r': nat, s: nat)
    requires a < b && r < s
    ensures a * s + r < b * s + r'
  {
    MulMonotonic(a + 1, b, s);
    assert (a + 1) * s == a * s + s;
  }

  /** Index vectors that agree before m > 0 agree at 0 and, shifted by one, before m - 1. */
  lemma LexTail(ix: seq<nat>, jx: seq<nat>, m: nat)
    requires 0 < m < |ix| && m < |jx| && ix[..m] == jx[..m]
    ensures ix[0] == jx[0] && ix[1..][..m - 1] == jx[1..][..m - 1] && ix[1..][m - 1] == ix[m]
  {
    assert ix[0] == ix[..m][0];
    assert ix[1..][..m - 1] == ix[..m][1..];
    assert jx[1..][..m - 1] == jx[..m][1..];
  }

  /** Every answer has one element per list, drawn from that list. */
  lemma {:induction false} ProductElements<T>(lists: seq<seq<T>>, k: nat)
    requires k < |CartesianProduct(lists)|
    ensures |CartesianProduct(lists)[k]| == |lists|
    ensures forall m :: 0 <= m < |lists| ==> CartesianProduct(lists)[k][m] in lists[m]
    decreases |lists|
  {
    if lists != [] {
      var rest := lists[1..];
      var tails := CartesianProduct(rest);
      ProductSize(rest);
      ExpandLength(lists[0], tails);
      var m := |tails|;
      DivBelow(k, |lists[0]|, m);
      var a, b := k / m, k % m;
      ExpandAt(lists[0], tails, a, b);
      ProductElements(rest, b);
      var t := CartesianProduct(lists)[k];
      assert t == [lists[0][a]] + tails[b];
      forall q | 0 <= q < |lists| ensures t[q] in lists[q] {
        if q > 0 {
          assert t[q] == tails[b][q - 1];
        }
      }
    }
  }

  /** Conversely, every sequence that draws one element from each list is an answer. */
  lemma ProductComplete<T>(lists: seq<seq<T>>, t: seq<T>)
    requires |t| == |lists| && forall m :: 0 <= m < |lists| ==> t[m] in lists[m]
    ensures t in CartesianProduct(lists)
  {
    var ix: seq<nat> := seq(|t|, m requires 0 <= m < |t| => var j :| 0 <= j < |lists[m]| && lists[m][j] == t[m]; j);
    assert ValidChoice(lists, ix);
    ProductAt(lists, ix);
    assert Pick(lists, ix) == t;
  }
}
