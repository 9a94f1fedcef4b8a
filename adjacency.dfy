/**
 * `Plan.get_adjacency_list` (src/plan.py): a dictionary with one entry per
 * room name, filled from the relation triples by writing the label in both
 * directions and skipping label 0.
 */
module Adjacency {
  import opened Wrappers
  import opened PairOrder
  import opened RoomRelation

  type AdjList = map<string, map<string, int>>

  /** `{name: {} for name in self.name2room}` */
  function EmptyAdj(names: set<string>): AdjList {
    map n | n in names :: map[]
  }

  /** One iteration of the loop over `self.relation`. */
  function AddRelation(adj: AdjList, r: Relation): AdjList
    requires r.first in adj && r.second in adj
  {
    if r.kind == Unrelated then adj
    else
      var a1 := adj[r.first := adj[r.first][r.second := r.kind]];
      a1[r.second := a1[r.second][r.first := r.kind]]
  }

  /** Every triple names known rooms (otherwise the Python loop raises KeyError). */
  ghost predicate Mentions(names: set<string>, rels: seq<Relation>) {
    forall k :: 0 <= k < |rels| ==> rels[k].first in names && rels[k].second in names
  }

  lemma MentionsAppend(names: set<string>, a: seq<Relation>, b: seq<Relation>)
    requires Mentions(names, a) && Mentions(names, b)
    ensures Mentions(names, a + b)
  {
    forall k | 0 <= k < |a + b| ensures (a + b)[k].first in names && (a + b)[k].second in names {
      if k >= |a| {
        assert (a + b)[k] == b[k - |a|];
      }
    }
  }

  /** The dictionary after processing the triples in order. */
  function BuildAdj(names: set<string>, rels: seq<Relation>): (adj: AdjList)
    requires Mentions(names, rels)
    ensures adj.Keys == names
  {
    if rels == [] then EmptyAdj(names)
    else AddRelation(BuildAdj(names, rels[..|rels| - 1]), rels[|rels| - 1])
  }

  /** One more triple: a prefix of a well-named relation is well named, and the fold takes one more step. */
  lemma BuildAdjSnoc(names: set<string>, rels: seq<Relation>, k: nat)
    requires Mentions(names, rels) && k < |rels|
    ensures Mentions(names, rels[..k]) && Mentions(names, rels[..k + 1])
    ensures BuildAdj(names, rels[..k + 1]) == AddRelation(BuildAdj(names, rels[..k]), rels[k])
  {
    assert rels[..k + 1][..k] == rels[..k];
  }

  /** The dictionary after the first k iterations of the loop over rels. */
  function BuildAdjPrefix(names: set<string>, rels: seq<Relation>, k: nat): (adj: AdjList)
    requires Mentions(names, rels) && k <= |rels|
    ensures adj.Keys == names
  {
    if k == 0 then EmptyAdj(names) else AddRelation(BuildAdjPrefix(names, rels, k - 1), rels[k - 1])
  }

  /** After k iterations the loop holds the fold over the first k triples. */
  lemma {:induction false} BuildAdjPrefixIsBuildAdj(names: set<string>, rels: seq<Relation>, k: nat)
    requires Mentions(names, rels) && k <= |rels|
    ensures Mentions(names, rels[..k]) && BuildAdjPrefix(names, rels, k) == BuildAdj(names, rels[..k])
  {
    if k > 0 {
      BuildAdjPrefixIsBuildAdj(names, rels, k - 1);
      BuildAdjSnoc(names, rels, k - 1);
    }
  }

  predicate Touches(r: Relation, a: string, b: string) {
    (r.first == a && r.second == b) || (r.first == b && r.second == a)
  }

  /** Reference reading: the label of the last non-zero triple that joins a and b, in either order. */
  function Lookup(rels: seq<Relation>, a: string, b: string): Option<int> {
    if rels == [] then None
    else if rels[|rels| - 1].kind != Unrelated && Touches(rels[|rels| - 1], a, b) then Some(rels[|rels| - 1].kind)
    else Lookup(rels[..|rels| - 1], a, b)
  }

  /** The dictionary built by the loop holds exactly what Lookup reads off the triples. */
  lemma {:induction false} BuildMatchesLookup(names: set<string>, rels: seq<Relation>)
    requires Mentions(names, rels)
    ensures forall a, b :: a in names ==> (b in BuildAdj(names, rels)[a] <==> Lookup(rels, a, b).Some?)
    ensures forall a, b :: a in names && b in BuildAdj(names, rels)[a] ==>
      BuildAdj(names, rels)[a][b] == Lookup(rels, a, b).value
  {
    if rels != [] {
      var front, r := rels[..|rels| - 1], rels[|rels| - 1];
      BuildMatchesLookup(names, front);
      var before := BuildAdj(names, front);
      var after := BuildAdj(names, rels);
      forall a, b | a in names
        ensures b in after[a] <==> Lookup(rels, a, b).Some?
        ensures b in after[a] ==> after[a][b] == Lookup(rels, a, b).value
      {
        AddRelationAt(before, r, a, b);
      }
    }
  }

  /** One triple writes its label under a and b when it joins them and is non-zero; nothing else changes. */
  lemma AddRelationAt(adj: AdjList, r: Relation, a: string, b: string)
    requires r.first in adj && r.second in adj && a in adj
    ensures var hit := r.kind != Unrelated && Touches(r, a, b);
      && a in AddRelation(adj, r)
      && (b in AddRelation(adj, r)[a] <==> hit || b in adj[a])
      && (b in AddRelation(adj, r)[a] ==> AddRelation(adj, r)[a][b] == if hit then r.kind else adj[a][b])
  {
  }

  lemma {:induction false} LookupSymmetric(rels: seq<Relation>, a: string, b: string)
    ensures Lookup(rels, a, b) == Lookup(rels, b, a)
  {
    if rels != [] {
      LookupSymmetric(rels[..|rels| - 1], a, b);
    }
  }

  lemma {:induction false} LookupNonZero(rels: seq<Relation>, a: string, b: string)
    ensures Lookup(rels, a, b) != Some(Unrelated)
  {
    if rels != [] {
      LookupNonZero(rels[..|rels| - 1], a, b);
    }
  }

  /**
   * The adjacency list has a key for every room name (isolated rooms map to
   * {}), is symmetric with equal labels both ways, and holds no label 0.
   */
  lemma AdjacencyShape(names: set<string>, rels: seq<Relation>)
    requires Mentions(names, rels)
    ensures BuildAdj(names, rels).Keys == names
    ensures forall a, b :: a in names && b in BuildAdj(names, rels)[a] ==>
      b in names && a in BuildAdj(names, rels)[b] &&
      BuildAdj(names, rels)[b][a] == BuildAdj(names, rels)[a][b] &&
      BuildAdj(names, rels)[a][b] != Unrelated
  {
    var adj := BuildAdj(names, rels);
    BuildMatchesLookup(names, rels);
    forall a, b | a in names && b in adj[a]
      ensures b in names && a in adj[b] && adj[b][a] == adj[a][b] && adj[a][b] != Unrelated
    {
      LookupSymmetric(rels, a, b);
      LookupNonZero(rels, a, b);
      LookupHasWitness(rels, a, b);
      var k :| 0 <= k < |rels| && Touches(rels[k], a, b);
      assert b == rels[k].first || b == rels[k].second;
    }
  }

  /** A found label comes from some triple that joins the two names. */
  lemma {:induction false} LookupHasWitness(rels: seq<Relation>, a: string, b: string)
    ensures Lookup(rels, a, b).Some? ==> exists k :: 0 <= k < |rels| && Touches(rels[k], a, b)
  {
    if rels != [] && !(rels[|rels| - 1].kind != Unrelated && Touches(rels[|rels| - 1], a, b)) {
      var front := rels[..|rels| - 1];
      LookupHasWitness(front, a, b);
      if Lookup(front, a, b).Some? {
        var k :| 0 <= k < |front| && Touches(front[k], a, b);
        assert rels[k] == front[k];
      }
    }
  }

  /** When no triple joins a and b, neither name lists the other. */
  lemma {:induction false} LookupAbsent(rels: seq<Relation>, a: string, b: string)
    requires forall k :: 0 <= k < |rels| ==> !Touches(rels[k], a, b)
    ensures Lookup(rels, a, b) == None
  {
    if rels != [] {
      LookupAbsent(rels[..|rels| - 1], a, b);
    }
  }

  /** When exactly one triple joins a and b, the adjacency holds its label, or nothing for label 0. */
  lemma {:induction false} LookupSingle(rels: seq<Relation>, a: string, b: string, k: nat)
    requires k < |rels| && Touches(rels[k], a, b)
    requires forall k' :: 0 <= k' < |rels| && k' != k ==> !Touches(rels[k'], a, b)
    ensures Lookup(rels, a, b) == if rels[k].kind != Unrelated then Some(rels[k].kind) else None
  {
    var front := rels[..|rels| - 1];
    if k == |rels| - 1 {
      LookupAbsent(front, a, b);
    } else {
      LookupSingle(front, a, b, k);
    }
  }

  function RoomNames(rs: seq<RoomData>): set<string> {
    set k | 0 <= k < |rs| :: rs[k].name
  }

  /** The relation table names only rooms of the plan, and never one room twice. */
  lemma TableNamesRooms(g: Geometry.Oracle, rs: seq<RoomData>)
    requires DistinctNames(rs)
    ensures Mentions(RoomNames(rs), RelationTable(g, rs))
    ensures forall k :: 0 <= k < |RelationTable(g, rs)| ==> RelationTable(g, rs)[k].first != RelationTable(g, rs)[k].second
  {
    var t := RelationTable(g, rs);
    AllPairsCharacterized(|rs|);
    forall k | 0 <= k < |t| ensures t[k].first in RoomNames(rs) && t[k].second in RoomNames(rs) && t[k].first != t[k].second {
      var p := AllPairs(|rs|)[k];
      assert t[k] == RelationOf(g, rs, p.0, p.1);
    }
  }

  /**
   * The adjacency list of a plan's relation table: room j is listed under
   * room i (and i under j) iff the pair's label is non-zero, with that label;
   * no room lists itself.
   */
  lemma AdjacencyOfTable(g: Geometry.Oracle, rs: seq<RoomData>, i: nat, j: nat)
    requires DistinctNames(rs)
    requires i < j < |rs|
    ensures Mentions(RoomNames(rs), RelationTable(g, rs))
    ensures var adj := BuildAdj(RoomNames(rs), RelationTable(g, rs));
      var l := Classify(g, rs[i], rs[j]);
      && (rs[j].name in adj[rs[i].name] <==> l != Unrelated)
      && (rs[i].name in adj[rs[j].name] <==> l != Unrelated)
      && (l != Unrelated ==> adj[rs[i].name][rs[j].name] == l && adj[rs[j].name][rs[i].name] == l)
      && rs[i].name !in adj[rs[i].name]
  {
    var t := RelationTable(g, rs);
    var names := RoomNames(rs);
    TableNamesRooms(g, rs);
    BuildMatchesLookup(names, t);
    var a, b := rs[i].name, rs[j].name;
    var k := PairIndex(i, j, |rs|);
    PairAt(i, j, |rs|);
    forall k' | 0 <= k' < |t| && k' != k ensures !Touches(t[k'], a, b) {
      OneRelationPerPair(g, rs, i, j, k');
    }
    OneRelationPerPair(g, rs, i, j, k);
    LookupSingle(t, a, b, k);
    LookupSymmetric(t, a, b);
    LookupAbsent(t, a, a);
  }
}
