/**
 * The relation rule of `Plan.generate_room_relation` and the neighbour rule
 * of `Plan.get_neighbours` (src/plan.py), stated on a snapshot of the rooms.
 */
module RoomRelation {
  import opened Geometry
  import opened PairOrder

  /** What the rules look at for one room: its name, its outline and its adjacent door names. */
  datatype RoomData = RoomData(name: string, polygon: Polygon, doors: set<string>)

  /** A triple `(room1.name, label, room2.name)` of `Plan.relation`; `kind` is the label (0, 1 or 2). */
  datatype Relation = Relation(first: string, kind: int, second: string)

  const Unrelated: int := 0
  const Direct: int := 1
  const ThroughDoor: int := 2

  predicate ShareDoor(a: RoomData, b: RoomData) {
    a.doors * b.doors != {}
  }

  /** Label precedence: a structural overlap wins over a shared door; 0 only when neither holds. */
  function Classify(g: Oracle, a: RoomData, b: RoomData): (l: int)
    ensures l == Direct <==> WallAdjacent(g, a.polygon, b.polygon)
    ensures l == ThroughDoor <==> !WallAdjacent(g, a.polygon, b.polygon) && ShareDoor(a, b)
    ensures l == Unrelated <==> !WallAdjacent(g, a.polygon, b.polygon) && !ShareDoor(a, b)
  {
    if WallAdjacent(g, a.polygon, b.polygon) then Direct
    else if ShareDoor(a, b) then ThroughDoor
    else Unrelated
  }

  function RelationOf(g: Oracle, rs: seq<RoomData>, i: nat, j: nat): Relation
    requires i < |rs| && j < |rs|
  {
    Relation(rs[i].name, Classify(g, rs[i], rs[j]), rs[j].name)
  }

  ghost predicate PairsInRange(ps: seq<(nat, nat)>, n: nat) {
    forall q :: 0 <= q < |ps| ==> ps[q].0 < n && ps[q].1 < n
  }

  /** The triples for the pairs ps, in the order of ps. */
  function RelationsFor(g: Oracle, rs: seq<RoomData>, ps: seq<(nat, nat)>): (t: seq<Relation>)
    requires PairsInRange(ps, |rs|)
  {
    seq(|ps|, q requires 0 <= q < |ps| => RelationOf(g, rs, ps[q].0, ps[q].1))
  }

  /** The relation list the nested loops append: one triple per visited pair, in visiting order. */
  function RelationTable(g: Oracle, rs: seq<RoomData>): (t: seq<Relation>)
    ensures forall k :: 0 <= k < |t| ==> Unrelated <= t[k].kind <= ThroughDoor
  {
    AllPairsCharacterized(|rs|);
    RelationsFor(g, rs, AllPairs(|rs|))
  }

  /** One more visited pair appends one more triple. */
  lemma RelationsForSnoc(g: Oracle, rs: seq<RoomData>, ps: seq<(nat, nat)>, i: nat, j: nat)
    requires PairsInRange(ps, |rs|) && i < |rs| && j < |rs|
    ensures PairsInRange(ps + [(i, j)], |rs|)
    ensures RelationsFor(g, rs, ps + [(i, j)]) == RelationsFor(g, rs, ps) + [RelationOf(g, rs, i, j)]
  {
    assert PairsInRange(ps + [(i, j)], |rs|);
    assert forall q :: 0 <= q < |ps| ==> RelationsFor(g, rs, ps + [(i, j)])[q] == RelationsFor(g, rs, ps)[q];
  }

  /** Visiting (i, j) after the pairs before it appends the triple for (i, j). */
  lemma VisitStep(g: Oracle, rs: seq<RoomData>, i: nat, j: nat)
    requires i < j < |rs|
    ensures PairsInRange(Visited(i, j, |rs|), |rs|) && PairsInRange(Visited(i, j + 1, |rs|), |rs|)
    ensures RelationsFor(g, rs, Visited(i, j + 1, |rs|)) == RelationsFor(g, rs, Visited(i, j, |rs|)) + [RelationOf(g, rs, i, j)]
  {
    var n := |rs|;
    PairsBelowMembers(i, n);
    VisitedSteps(i, j, n);
    var v := Visited(i, j, n);
    forall q | 0 <= q < |v| ensures v[q].0 < n && v[q].1 < n {
      if q >= |PairsBelow(i, n)| {
        assert v[q] == Row(i, n)[q - |PairsBelow(i, n)|];
      }
    }
    RelationsForSnoc(g, rs, v, i, j);
  }

  ghost predicate DistinctNames(rs: seq<RoomData>) {
    forall a, b :: 0 <= a < |rs| && 0 <= b < |rs| && a != b ==> rs[a].name != rs[b].name
  }

  /** n rooms give n(n-1)/2 triples; a plan with at most one room has none. */
  lemma RelationCount(g: Oracle, rs: seq<RoomData>)
    ensures |RelationTable(g, rs)| == |rs| * (|rs| - 1) / 2
    ensures |rs| <= 1 ==> RelationTable(g, rs) == []
  {
    PairCount(|rs|);
  }

  /**
   * The triple at position PairIndex(i, j) relates room i to room j with the
   * classified label; with distinct names it is the only triple that names
   * rooms i and j, in either order.
   */
  lemma OneRelationPerPair(g: Oracle, rs: seq<RoomData>, i: nat, j: nat, k: nat)
    requires DistinctNames(rs)
    requires i < j < |rs|
    requires k < |RelationTable(g, rs)|
    ensures PairIndex(i, j, |rs|) < |RelationTable(g, rs)|
    ensures RelationTable(g, rs)[PairIndex(i, j, |rs|)] == RelationOf(g, rs, i, j)
    ensures var r := RelationTable(g, rs)[k];
      (r.first == rs[i].name && r.second == rs[j].name) || (r.first == rs[j].name && r.second == rs[i].name)
      <==> k == PairIndex(i, j, |rs|)
  {
    var n := |rs|;
    AllPairsCharacterized(n);
    var p := AllPairs(n)[k];
    var r := RelationTable(g, rs)[k];
    assert r == RelationsFor(g, rs, AllPairs(n))[k];
    assert r == RelationOf(g, rs, p.0, p.1);
    if (r.first == rs[i].name && r.second == rs[j].name) || (r.first == rs[j].name && r.second == rs[i].name) {
      assert p == (i, j);
      PairPositionUnique(n, k, PairIndex(i, j, n));
    }
  }

  /** Every triple relates an earlier room to a later one, and the triples follow lexicographic pair order. */
  lemma RelationOrder(g: Oracle, rs: seq<RoomData>, k: nat)
    requires k < |RelationTable(g, rs)|
    ensures var p := AllPairs(|rs|)[k];
      p.0 < p.1 < |rs| && RelationTable(g, rs)[k] == RelationOf(g, rs, p.0, p.1)
    ensures forall k' :: k < k' < |RelationTable(g, rs)| ==> LexLess(AllPairs(|rs|)[k], AllPairs(|rs|)[k'])
  {
    AllPairsCharacterized(|rs|);
  }

  /** `get_neighbours` condition: different names, and a structural overlap or a shared door. */
  predicate Linked(g: Oracle, a: RoomData, b: RoomData): (l: bool)
    ensures l <==> a.name != b.name && Classify(g, a, b) != Unrelated
  {
    a.name != b.name && (WallAdjacent(g, a.polygon, b.polygon) || ShareDoor(a, b))
  }

  /** The indices at which bs holds, in increasing order. */
  function Where(bs: seq<bool>): (ix: seq<nat>)
    ensures forall k :: 0 <= k < |ix| ==> ix[k] < |bs|
  {
    if bs == [] then [] else Where(bs[..|bs| - 1]) + (if bs[|bs| - 1] then [|bs| - 1] else [])
  }

  lemma {:induction false} WhereMembers(bs: seq<bool>)
    ensures forall k :: 0 <= k < |Where(bs)| ==> bs[Where(bs)[k]]
    ensures forall j :: 0 <= j < |bs| && bs[j] ==> j in Where(bs)
    ensures forall a, b :: 0 <= a < b < |Where(bs)| ==> Where(bs)[a] < Where(bs)[b]
  {
    if bs != [] {
      var front := bs[..|bs| - 1];
      WhereMembers(front);
      assert forall j :: 0 <= j < |front| ==> front[j] == bs[j];
    }
  }

  lemma WhereSnoc(bs: seq<bool>, j: nat)
    requires j < |bs|
    ensures bs[j] ==> Where(bs[..j + 1]) == Where(bs[..j]) + [j]
    ensures !bs[j] ==> Where(bs[..j + 1]) == Where(bs[..j])
  {
    assert bs[..j + 1][..j] == bs[..j];
    assert Where(bs[..j]) + [] == Where(bs[..j]);
  }

  /** Row i of the neighbour test, for j = 0 .. n-1. */
  function LinkRow(g: Oracle, rs: seq<RoomData>, i: nat): (row: seq<bool>)
    requires i < |rs|
  {
    seq(|rs|, j requires 0 <= j < |rs| => Linked(g, rs[i], rs[j]))
  }

  /** Indices of the rooms `get_neighbours` appends to room i's list, in the order it appends them. */
  function NeighbourIndices(g: Oracle, rs: seq<RoomData>, i: nat): (ix: seq<nat>)
    requires i < |rs|
    ensures forall k :: 0 <= k < |ix| ==> ix[k] < |rs|
  {
    Where(LinkRow(g, rs, i))
  }

  /**
   * Room j is a neighbour of room i iff their names differ and they overlap
   * structurally or share a door; the list is ordered by j and never holds i.
   */
  lemma NeighbourMembers(g: Oracle, rs: seq<RoomData>, i: nat)
    requires i < |rs|
    ensures forall j :: 0 <= j < |rs| ==> (j in NeighbourIndices(g, rs, i) <==> Linked(g, rs[i], rs[j]))
    ensures forall k :: 0 <= k < |NeighbourIndices(g, rs, i)| ==> NeighbourIndices(g, rs, i)[k] < |rs|
    ensures forall a, b :: 0 <= a < b < |NeighbourIndices(g, rs, i)| ==>
      NeighbourIndices(g, rs, i)[a] < NeighbourIndices(g, rs, i)[b]
    ensures i !in NeighbourIndices(g, rs, i)
  {
    WhereMembers(LinkRow(g, rs, i));
  }

  /**
   * For i < j the neighbour test and the relation label agree: j is a
   * neighbour of i iff the triple for (i, j) has a non-zero label; if the
   * overlap measurement is symmetric, the same holds for i as a neighbour of j.
   */
  lemma NeighboursMatchRelation(g: Oracle, rs: seq<RoomData>, i: nat, j: nat)
    requires DistinctNames(rs)
    requires i < j < |rs|
    ensures PairIndex(i, j, |rs|) < |RelationTable(g, rs)|
    ensures j in NeighbourIndices(g, rs, i) <==> RelationTable(g, rs)[PairIndex(i, j, |rs|)].kind != Unrelated
    ensures SymmetricOverlap(g) ==>
      (i in NeighbourIndices(g, rs, j) <==> RelationTable(g, rs)[PairIndex(i, j, |rs|)].kind != Unrelated)
  {
    AllPairsCharacterized(|rs|);
    PairAt(i, j, |rs|);
    NeighbourMembers(g, rs, i);
    NeighbourMembers(g, rs, j);
    assert rs[i].doors * rs[j].doors == rs[j].doors * rs[i].doors;
  }
}
