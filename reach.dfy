/**
 * Breadth-first layers over a graph given by successor lists, the theory
 * behind `Plan.explore` (src/plan.py).
 *
 * Within(G, s, k) is the set of nodes at most k hops from s; a node is at
 * distance d when it lies in Within(d) but not in Within(d - 1).  These are
 * related to explicit walks, so "distance" means the length of a shortest walk.
 */
module Reach {

  type Graph<T> = map<T, seq<T>>

  function Succ<T>(g: Graph<T>, u: T): seq<T> {
    if u in g then g[u] else []
  }

  /** Everything one hop from a node of S. */
  function Step<T>(g: Graph<T>, S: set<T>): set<T> {
    set u, v | u in S && v in Succ(g, u) :: v
  }

  /** Nodes within k hops of s. */
  function Within<T>(g: Graph<T>, s: T, k: nat): set<T> {
    if k == 0 then {s} else Within(g, s, k - 1) + Step(g, Within(g, s, k - 1))
  }

  /** Nodes exactly k hops from s: the k-th BFS layer. */
  function Frontier<T>(g: Graph<T>, s: T, k: nat): set<T> {
    if k == 0 then {s} else Within(g, s, k) - Within(g, s, k - 1)
  }

  ghost predicate AtDistance<T>(g: Graph<T>, s: T, v: T, d: nat) {
    v in Within(g, s, d) && (d == 0 || v !in Within(g, s, d - 1))
  }

  ghost predicate Reachable<T>(g: Graph<T>, s: T, v: T) {
    exists k: nat :: v in Within(g, s, k)
  }

  /** p follows successor lists from p[0] to p[|p| - 1]; it has |p| - 1 hops. */
  ghost predicate IsWalk<T>(g: Graph<T>, p: seq<T>) {
    |p| >= 1 && forall k :: 0 <= k < |p| - 1 ==> p[k + 1] in Succ(g, p[k])
  }

  lemma {:induction false} WithinMonotonic<T>(g: Graph<T>, s: T, k: nat, k': nat)
    requires k <= k'
    ensures Within(g, s, k) <= Within(g, s, k')
    decreases k' - k
  {
    if k < k' {
      WithinMonotonic(g, s, k, k' - 1);
    }
  }

  /** The endpoint of a walk from s with m hops lies within m hops. */
  lemma {:induction false} WalkWithin<T>(g: Graph<T>, s: T, p: seq<T>)
    requires IsWalk(g, p) && p[0] == s
    ensures p[|p| - 1] in Within(g, s, |p| - 1)
    decreases |p|
  {
    if |p| > 1 {
      var q := p[..|p| - 1];
      assert IsWalk(g, q);
      WalkWithin(g, s, q);
      assert p[|p| - 1] in Succ(g, q[|q| - 1]);
    }
  }

  /** Every node within k hops is the end of a walk from s with at most k hops. */
  lemma {:induction false} WithinWalk<T>(g: Graph<T>, s: T, v: T, k: nat) returns (p: seq<T>)
    requires v in Within(g, s, k)
    ensures IsWalk(g, p) && p[0] == s && p[|p| - 1] == v && |p| <= k + 1
  {
    if k == 0 {
      p := [s];
    } else if v in Within(g, s, k - 1) {
      p := WithinWalk(g, s, v, k - 1);
    } else {
      assert v in Step(g, Within(g, s, k - 1));
      var u :| u in Within(g, s, k - 1) && v in Succ(g, u);
      var q := WithinWalk(g, s, u, k - 1);
      p := q + [v];
      WalkSnoc(g, q, v);
    }
  }

  /** A walk extended by a successor of its last node is a walk with the same start. */
  lemma WalkSnoc<T>(g: Graph<T>, q: seq<T>, v: T)
    requires IsWalk(g, q) && v in Succ(g, q[|q| - 1])
    ensures IsWalk(g, q + [v]) && (q + [v])[0] == q[0]
  {
    assert forall m :: 0 <= m < |q| ==> (q + [v])[m] == q[m];
  }

  /** A node within d hops is within e - 1 hops for every e > d, so it is not at distance e. */
  lemma {:induction false} NotLaterDistance<T>(g: Graph<T>, s: T, v: T, d: nat, e: nat)
    requires v in Within(g, s, d) && d < e
    ensures !AtDistance(g, s, v, e)
  {
    WithinMonotonic(g, s, d, e - 1);
    assert v in Within(g, s, e - 1);
  }

  /** At distance d means: some walk from s to v has d hops and none has fewer. */
  lemma {:induction false} DistanceIsShortestWalk<T>(g: Graph<T>, s: T, v: T, d: nat)
    requires AtDistance(g, s, v, d)
    ensures exists p :: IsWalk(g, p) && p[0] == s && p[|p| - 1] == v && |p| == d + 1
    ensures forall p :: IsWalk(g, p) && p[0] == s && p[|p| - 1] == v ==> |p| >= d + 1
  {
    forall q | IsWalk(g, q) && q[0] == s && q[|q| - 1] == v ensures |q| >= d + 1 {
      WalkWithin(g, s, q);
      if |q| < d + 1 {
        NotLaterDistance(g, s, v, |q| - 1, d);
      }
    }
    var p := WithinWalk(g, s, v, d);
    assert |p| >= d + 1;
  }

  /** A node has at most one distance. */
  lemma {:induction false} DistanceUnique<T>(g: Graph<T>, s: T, v: T, d: nat, d': nat)
    requires AtDistance(g, s, v, d) && AtDistance(g, s, v, d')
    ensures d == d'
  {
    if d < d' {
      NotLaterDistance(g, s, v, d, d');
    } else if d' < d {
      NotLaterDistance(g, s, v, d', d);
    }
  }

  lemma StepUnion<T>(g: Graph<T>, A: set<T>, B: set<T>)
    ensures Step(g, A + B) == Step(g, A) + Step(g, B)
  {
  }

  /** The next layer is reached from the current frontier alone: BFS need not look further back. */
  lemma {:induction false} NextLayer<T>(g: Graph<T>, s: T, k: nat)
    ensures Within(g, s, k + 1) == Within(g, s, k) + Step(g, Frontier(g, s, k))
  {
    if k > 0 {
      WithinMonotonic(g, s, k - 1, k);
      assert Within(g, s, k) == Within(g, s, k - 1) + Frontier(g, s, k);
      StepUnion(g, Within(g, s, k - 1), Frontier(g, s, k));
    }
  }

  /** Once a layer is empty, no further node is ever reached. */
  lemma {:induction false} EmptyFrontierStable<T>(g: Graph<T>, s: T, k: nat, j: nat)
    requires k > 0 && Frontier(g, s, k) == {}
    ensures Within(g, s, j) <= Within(g, s, k)
  {
    if j > k {
      EmptyFrontierStable(g, s, k, j - 1);
      assert Step(g, Within(g, s, k)) <= Within(g, s, k) by {
        NextLayer(g, s, k);
      }
      StepMonotonic(g, Within(g, s, j - 1), Within(g, s, k));
    } else {
      WithinMonotonic(g, s, j, k);
    }
  }

  lemma StepMonotonic<T>(g: Graph<T>, A: set<T>, B: set<T>)
    requires A <= B
    ensures Step(g, A) <= Step(g, B)
  {
  }

  /**
   * The state of one BFS sweep: the level of every node found so far, the
   * nodes found in this sweep in order, and the node each was found from.
   */
  datatype Layer<T> = Layer(levels: map<T, nat>, nxt: seq<T>, par: map<T, T>)

  /** Scanning the successors vs of u in order: each node without a level gets level i, joins nxt and records u. */
  function Scan<T>(st: Layer<T>, u: T, vs: seq<T>, i: nat): (r: Layer<T>)
    ensures |st.nxt| <= |r.nxt| <= |st.nxt| + |vs| && r.nxt[..|st.nxt|] == st.nxt
  {
    if vs == [] then st
    else
      var st' := Scan(st, u, vs[..|vs| - 1], i);
      var v := vs[|vs| - 1];
      if v in st'.levels then st' else Layer(st'.levels[v := i], st'.nxt + [v], st'.par[v := u])
  }

  /** Scanning every node of the frontier us in order. */
  function ScanAll<T>(g: Graph<T>, st: Layer<T>, us: seq<T>, i: nat): (r: Layer<T>)
    ensures |st.nxt| <= |r.nxt| && r.nxt[..|st.nxt|] == st.nxt
  {
    if us == [] then st
    else
      var u := us[|us| - 1];
      Scan(ScanAll(g, st, us[..|us| - 1], i), u, Succ(g, u), i)
  }

  /** Scanning one more successor is one more step of the fold. */
  lemma ScanSnoc<T>(st: Layer<T>, u: T, vs: seq<T>, k: nat, i: nat)
    requires k < |vs|
    ensures var mid := Scan(st, u, vs[..k], i);
      Scan(st, u, vs[..k + 1], i) ==
        if vs[k] in mid.levels then mid else Layer(mid.levels[vs[k] := i], mid.nxt + [vs[k]], mid.par[vs[k] := u])
  {
    assert vs[..k + 1][..k] == vs[..k];
  }

  /** A scan keeps every level and parent it started from, and keeps parents levelled. */
  lemma {:induction false} ScanKeeps<T>(st: Layer<T>, u: T, vs: seq<T>, i: nat)
    requires ParentsLevelled(st)
    ensures forall v :: v in st.levels ==> v in Scan(st, u, vs, i).levels && Scan(st, u, vs, i).levels[v] == st.levels[v]
    ensures forall v :: v in st.par ==> v in Scan(st, u, vs, i).par && Scan(st, u, vs, i).par[v] == st.par[v]
    ensures ParentsLevelled(Scan(st, u, vs, i))
  {
    if vs != [] {
      ScanKeeps(st, u, vs[..|vs| - 1], i);
    }
  }

  /** Sweeping one more frontier node is one more scan. */
  lemma ScanAllSnoc<T>(g: Graph<T>, st: Layer<T>, us: seq<T>, k: nat, i: nat)
    requires k < |us|
    ensures ScanAll(g, st, us[..k + 1], i) == Scan(ScanAll(g, st, us[..k], i), us[k], Succ(g, us[k]), i)
  {
    assert us[..k + 1][..k] == us[..k];
  }

  function Elems<T>(us: seq<T>): set<T> {
    set u | u in us
  }

  /** Every recorded predecessor belongs to a node that has a level. */
  ghost predicate ParentsLevelled<T>(st: Layer<T>) {
    forall v :: v in st.par ==> v in st.levels
  }

  /** What a sweep keeps and what it adds: every new node has level i, sits in nxt and was found from a node of U. */
  ghost predicate Grows<T>(g: Graph<T>, st: Layer<T>, st': Layer<T>, U: set<T>, i: nat) {
    && (forall v :: v in st.levels ==> v in st'.levels && st'.levels[v] == st.levels[v])
    && (forall v :: v in st.par ==> v in st'.par && st'.par[v] == st.par[v])
    && (forall v :: v in st'.nxt ==> v in st.nxt || (v in st'.levels && v !in st.levels))
    && (forall v :: v in st'.par ==> v in st.par || (v in st'.levels && v !in st.levels))
    && (forall v :: v in st.nxt ==> v in st'.nxt)
    && (forall v :: v in st'.levels && v !in st.levels ==>
          st'.levels[v] == i && v in st'.nxt && v in st'.par && st'.par[v] in U && v in Succ(g, st'.par[v]))
  }

  lemma GrowsTrans<T>(g: Graph<T>, a: Layer<T>, b: Layer<T>, c: Layer<T>, U: set<T>, U': set<T>, i: nat)
    requires Grows(g, a, b, U, i) && Grows(g, b, c, U', i)
    ensures Grows(g, a, c, U + U', i)
  {
  }

  /** One successor v of u: found now if it has no level yet. */
  lemma ScanOne<T>(g: Graph<T>, st: Layer<T>, u: T, v: T, i: nat)
    requires ParentsLevelled(st) && v in Succ(g, u)
    ensures var st' := if v in st.levels then st else Layer(st.levels[v := i], st.nxt + [v], st.par[v := u]);
      Grows(g, st, st', {u}, i) && ParentsLevelled(st')
  {
  }

  lemma {:induction false} ScanGrows<T>(g: Graph<T>, st: Layer<T>, u: T, vs: seq<T>, i: nat)
    requires |vs| <= |Succ(g, u)| && vs == Succ(g, u)[..|vs|]
    requires ParentsLevelled(st)
    ensures Grows(g, st, Scan(st, u, vs, i), {u}, i) && ParentsLevelled(Scan(st, u, vs, i))
  {
    if vs == [] {
    } else {
      var front := vs[..|vs| - 1];
      assert front == Succ(g, u)[..|front|];
      ScanGrows(g, st, u, front, i);
      var mid := Scan(st, u, front, i);
      var v := vs[|vs| - 1];
      assert v == Succ(g, u)[|vs| - 1];
      var last := if v in mid.levels then mid else Layer(mid.levels[v := i], mid.nxt + [v], mid.par[v := u]);
      assert Scan(st, u, vs, i) == last;
      ScanOne(g, mid, u, v, i);
      GrowsTrans(g, st, mid, last, {u}, {u}, i);
    }
  }

  lemma {:induction false} ScanAllGrows<T>(g: Graph<T>, st: Layer<T>, us: seq<T>, i: nat)
    requires ParentsLevelled(st)
    ensures Grows(g, st, ScanAll(g, st, us, i), Elems(us), i) && ParentsLevelled(ScanAll(g, st, us, i))
  {
    if us == [] {
    } else {
      var front, u := us[..|us| - 1], us[|us| - 1];
      var mid := ScanAll(g, st, front, i);
      ScanAllGrows(g, st, front, i);
      assert Succ(g, u)[..|Succ(g, u)|] == Succ(g, u);
      ScanGrows(g, mid, u, Succ(g, u), i);
      assert Elems(us) == Elems(front) + {u};
      GrowsTrans(g, st, mid, ScanAll(g, st, us, i), Elems(front), {u}, i);
    }
  }

  /** A scan gives levels to exactly the scanned nodes that had none. */
  lemma {:induction false} ScanKeys<T>(st: Layer<T>, u: T, vs: seq<T>, i: nat)
    ensures Scan(st, u, vs, i).levels.Keys == st.levels.Keys + Elems(vs)
  {
    if vs != [] {
      var front := vs[..|vs| - 1];
      ScanKeys(st, u, front, i);
      assert vs == front + [vs[|vs| - 1]];
      assert Elems(vs) == Elems(front) + {vs[|vs| - 1]};
    }
  }

  /** A sweep keeps every level and parent it started from, and keeps parents levelled. */
  lemma ScanAllKeeps<T>(g: Graph<T>, st: Layer<T>, us: seq<T>, i: nat)
    requires ParentsLevelled(st)
    ensures forall v :: v in st.levels ==> v in ScanAll(g, st, us, i).levels && ScanAll(g, st, us, i).levels[v] == st.levels[v]
    ensures forall v :: v in st.par ==> v in ScanAll(g, st, us, i).par && ScanAll(g, st, us, i).par[v] == st.par[v]
    ensures ParentsLevelled(ScanAll(g, st, us, i))
  {
    ScanAllGrows(g, st, us, i);
  }

  /** A sweep over the frontier us gives levels to exactly the successors of us that had none. */
  lemma {:induction false} ScanAllKeys<T>(g: Graph<T>, st: Layer<T>, us: seq<T>, i: nat)
    ensures ScanAll(g, st, us, i).levels.Keys == st.levels.Keys + Step(g, Elems(us))
  {
    if us != [] {
      var front, u := us[..|us| - 1], us[|us| - 1];
      ScanAllKeys(g, st, front, i);
      ScanKeys(ScanAll(g, st, front, i), u, Succ(g, u), i);
      assert us == front + [u];
      assert Elems(us) == Elems(front) + {u};
      StepUnion(g, Elems(front), {u});
      assert Step(g, {u}) == Elems(Succ(g, u));
    }
  }

  /** Before sweep i: the levelled nodes are those within i - 1 hops, each levelled with its distance. */
  ghost predicate LevelsOk<T>(g: Graph<T>, s: T, levels: map<T, nat>, i: nat) {
    && i >= 1
    && levels.Keys == Within(g, s, i - 1)
    && (forall v :: v in levels ==> AtDistance(g, s, v, levels[v]))
  }

  /** Before sweep i: the frontier lists layer i - 1. */
  ghost predicate FrontierOk<T>(g: Graph<T>, s: T, frontier: seq<T>, i: nat) {
    i >= 1 && Elems(frontier) == Frontier(g, s, i - 1)
  }

  /** Before sweep i every frontier node has been levelled i - 1. */
  ghost predicate FrontierLevelled<T>(levels: map<T, nat>, frontier: seq<T>, i: nat) {
    forall u :: u in frontier ==> u in levels && levels[u] + 1 == i
  }

  /** s is at level 0, and every other levelled node was found from a node one level lower that lists it. */
  ghost predicate ParentsOk<T>(g: Graph<T>, s: T, st: Layer<T>) {
    && s in st.levels && st.levels[s] == 0
    && (forall v :: v in st.par ==>
          v in st.levels && v != s && st.par[v] in st.levels &&
          st.levels[st.par[v]] + 1 == st.levels[v] && v in Succ(g, st.par[v]))
    && (forall v :: v in st.levels && v != s ==> v in st.par)
  }

  /**
   * The state of the BFS before sweep i: st.levels holds the distance of
   * every node within i - 1 hops, st.nxt lists layer i - 1, and every node
   * but s was found from a node one level lower that lists it as a successor.
   */
  ghost predicate BfsState<T>(g: Graph<T>, s: T, st: Layer<T>, i: nat) {
    LevelsOk(g, s, st.levels, i) && FrontierOk(g, s, st.nxt, i) && FrontierLevelled(st.levels, st.nxt, i) && ParentsOk(g, s, st)
  }

  /** `levels = {s: 0}`, `frontier = [s]`, `i = 1`. */
  lemma BfsInit<T>(g: Graph<T>, s: T)
    ensures BfsState(g, s, Layer(map[s := 0], [s], map[]), 1)
  {
    assert Elems([s]) == {s};
  }

  /** One sweep over the frontier turns the state before sweep i into the state before sweep i + 1. */
  lemma BfsStep<T>(g: Graph<T>, s: T, st: Layer<T>, i: nat)
    requires BfsState(g, s, st, i)
    ensures ParentsLevelled(Layer(st.levels, [], st.par))
    ensures Grows(g, Layer(st.levels, [], st.par), ScanAll(g, Layer(st.levels, [], st.par), st.nxt, i), Elems(st.nxt), i)
    ensures BfsState(g, s, ScanAll(g, Layer(st.levels, [], st.par), st.nxt, i), i + 1)
  {
    var st0 := Layer(st.levels, [], st.par);
    var st' := ScanAll(g, st0, st.nxt, i);
    ScanAllGrows(g, st0, st.nxt, i);
    ScanAllKeys(g, st0, st.nxt, i);
    StepLevels(g, s, st, st', i);
    NewFrontierLevelled(g, st0, st', Elems(st.nxt), i);
    StepParents(g, s, st, st', i);
  }

  /** The levels and the frontier after sweep i. */
  lemma StepLevels<T>(g: Graph<T>, s: T, st: Layer<T>, st': Layer<T>, i: nat)
    requires LevelsOk(g, s, st.levels, i) && FrontierOk(g, s, st.nxt, i)
    requires st'.levels.Keys == st.levels.Keys + Step(g, Elems(st.nxt))
    requires Grows(g, Layer(st.levels, [], st.par), st', Elems(st.nxt), i)
    ensures LevelsOk(g, s, st'.levels, i + 1) && FrontierOk(g, s, st'.nxt, i + 1)
  {
    assert st'.levels.Keys == Within(g, s, i) by {
      assert st'.levels.Keys == Within(g, s, i - 1) + Step(g, Frontier(g, s, i - 1));
      NextLayer(g, s, i - 1);
    }
    assert Elems(st'.nxt) == st'.levels.Keys - st.levels.Keys by {
      NewNodes(g, Layer(st.levels, [], st.par), st', Elems(st.nxt), i);
    }
    StepDistances(g, s, st.levels, st'.levels, i);
  }

  /** A sweep that starts with an empty nxt ends with nxt listing exactly the new nodes. */
  lemma NewNodes<T>(g: Graph<T>, st: Layer<T>, st': Layer<T>, U: set<T>, i: nat)
    requires Grows(g, st, st', U, i) && st.nxt == []
    ensures Elems(st'.nxt) == st'.levels.Keys - st.levels.Keys
  {
  }

  /** Nodes found in sweep i are at distance i; the others keep their distance. */
  lemma StepDistances<T>(g: Graph<T>, s: T, levels: map<T, nat>, levels': map<T, nat>, i: nat)
    requires i >= 1 && levels.Keys == Within(g, s, i - 1) && levels'.Keys == Within(g, s, i)
    requires forall v :: v in levels ==> AtDistance(g, s, v, levels[v])
    requires forall v :: v in levels ==> levels'[v] == levels[v]
    requires forall v :: v in levels' && v !in levels ==> levels'[v] == i
    ensures forall v :: v in levels' ==> AtDistance(g, s, v, levels'[v])
  {
  }

  /** The nodes a sweep puts on the new frontier are the ones it levels i. */
  lemma NewFrontierLevelled<T>(g: Graph<T>, st: Layer<T>, st': Layer<T>, U: set<T>, i: nat)
    requires Grows(g, st, st', U, i) && st.nxt == []
    ensures FrontierLevelled(st'.levels, st'.nxt, i + 1)
  {
  }

  /** Nodes found in sweep i were found from the frontier, whose nodes have level i - 1. */
  lemma StepParents<T>(g: Graph<T>, s: T, st: Layer<T>, st': Layer<T>, i: nat)
    requires ParentsOk(g, s, st) && i >= 1
    requires FrontierLevelled(st.levels, st.nxt, i)
    requires Grows(g, Layer(st.levels, [], st.par), st', Elems(st.nxt), i)
    ensures ParentsOk(g, s, st')
  {
  }

  /** When the frontier is empty the levelled nodes are exactly the reachable ones. */
  lemma BfsDone<T>(g: Graph<T>, s: T, levels: map<T, nat>, i: nat)
    requires LevelsOk(g, s, levels, i) && FrontierOk(g, s, [], i)
    ensures forall v :: v in levels ==> Reachable(g, s, v)
    ensures forall v :: Reachable(g, s, v) ==> v in levels
  {
    assert Frontier(g, s, 0) == {s};
    assert i > 1;
    forall v | Reachable(g, s, v) ensures v in levels {
      var k: nat :| v in Within(g, s, k);
      EmptyFrontierStable(g, s, i - 1, k);
    }
  }

  /** A set that holds s and the successors of its members holds every node within k hops. */
  lemma {:induction false} WithinClosed<T>(g: Graph<T>, s: T, k: nat, U: set<T>)
    requires s in U && forall u, v :: u in U && v in Succ(g, u) ==> v in U
    ensures Within(g, s, k) <= U
  {
    if k > 0 {
      WithinClosed(g, s, k - 1, U);
    }
  }

  /** Adding a node of U to A leaves fewer nodes of U outside. */
  lemma FewerLeft<T>(U: set<T>, A: set<T>, B: set<T>, x: T)
    requires A <= B <= U && x in B && x !in A
    ensures |U - B| < |U - A|
  {
    assert U - A == (U - B) + (B - A);
    assert x in B - A;
  }

  /** A growing key set inside U leaves fewer nodes of U outside it, unless it stayed put with an empty frontier. */
  lemma Progress<T>(U: set<T>, A: set<T>, B: set<T>, nxt: seq<T>)
    requires A <= B <= U && (nxt != [] ==> B != A)
    ensures B != A ==> |U - B| < |U - A|
    ensures B == A ==> nxt == []
  {
    if B != A {
      var x :| x in B && x !in A;
      FewerLeft(U, A, B, x);
    }
  }

  /** The BFS state after k sweeps from s: `levels = {s: 0}`, `frontier = [s]`, then one ScanAll per sweep. */
  ghost function Sweeps<T>(g: Graph<T>, s: T, k: nat): Layer<T> {
    if k == 0 then Layer(map[s := 0], [s], map[])
    else
      var st := Sweeps(g, s, k - 1);
      ScanAll(g, Layer(st.levels, [], st.par), st.nxt, k)
  }

  /** After k sweeps the state is the BFS state before sweep k + 1. */
  lemma {:induction false} SweepsState<T>(g: Graph<T>, s: T, k: nat)
    ensures BfsState(g, s, Sweeps(g, s, k), k + 1)
  {
    if k == 0 {
      BfsInit(g, s);
    } else {
      SweepsState(g, s, k - 1);
      BfsStep(g, s, Sweeps(g, s, k - 1), k);
    }
  }

  /**
   * Once a sweep leaves the frontier empty, the levelled nodes are exactly
   * the nodes reachable from s, each at its distance from s, and the parents
   * form shortest-path links back to s.
   */
  lemma SweepsDone<T>(g: Graph<T>, s: T, k: nat)
    requires Sweeps(g, s, k).nxt == []
    ensures Sweeps(g, s, k).levels.Keys == Within(g, s, k)
    ensures forall v :: v in Sweeps(g, s, k).levels ==> Reachable(g, s, v) && AtDistance(g, s, v, Sweeps(g, s, k).levels[v])
    ensures forall v :: Reachable(g, s, v) ==> v in Sweeps(g, s, k).levels
    ensures ParentsOk(g, s, Sweeps(g, s, k))
  {
    SweepsState(g, s, k);
    BfsDone(g, s, Sweeps(g, s, k).levels, k + 1);
  }

  /** A sweep that leaves a non-empty frontier has levelled some new node. */
  lemma SweepAddsFrontier<T>(g: Graph<T>, s: T, k: nat)
    ensures Sweeps(g, s, k + 1).nxt != [] ==> Sweeps(g, s, k + 1).levels.Keys != Sweeps(g, s, k).levels.Keys
  {
    var st, st' := Sweeps(g, s, k), Sweeps(g, s, k + 1);
    SweepsState(g, s, k);
    BfsStep(g, s, st, k + 1);
    if st'.nxt != [] {
      assert st'.nxt[0] in st'.nxt;
    }
  }

  /** A sweep stays inside a set U holding s and closed under Succ, and keeps parents levelled. */
  lemma SweepFacts<T>(g: Graph<T>, s: T, k: nat, U: set<T>)
    requires s in U && forall u, v :: u in U && v in Succ(g, u) ==> v in U
    ensures ParentsLevelled(Layer(Sweeps(g, s, k).levels, [], Sweeps(g, s, k).par))
    ensures Sweeps(g, s, k).levels.Keys <= U
    ensures forall u :: u in Sweeps(g, s, k).nxt ==> u in U
    ensures Sweeps(g, s, k + 1).levels.Keys != Sweeps(g, s, k).levels.Keys ==>
      |U - Sweeps(g, s, k + 1).levels.Keys| < |U - Sweeps(g, s, k).levels.Keys|
    ensures Sweeps(g, s, k + 1).levels.Keys == Sweeps(g, s, k).levels.Keys ==> Sweeps(g, s, k + 1).nxt == []
  {
    SweepInside(g, s, k, U);
    SweepProgress(g, s, k, U);
  }

  /** Within a set U that holds s and is closed under Succ: the levelled nodes and the frontier stay in U. */
  lemma SweepInside<T>(g: Graph<T>, s: T, k: nat, U: set<T>)
    requires s in U && forall u, v :: u in U && v in Succ(g, u) ==> v in U
    ensures ParentsLevelled(Layer(Sweeps(g, s, k).levels, [], Sweeps(g, s, k).par))
    ensures Sweeps(g, s, k).levels.Keys <= U
    ensures forall u :: u in Sweeps(g, s, k).nxt ==> u in U
  {
    var st := Sweeps(g, s, k);
    SweepsState(g, s, k);
    WithinClosed(g, s, k, U);
    forall u | u in st.nxt ensures u in U {
      assert u in Elems(st.nxt);
    }
  }

  /** Each sweep either levels a new node of U or leaves an empty frontier. */
  lemma SweepProgress<T>(g: Graph<T>, s: T, k: nat, U: set<T>)
    requires s in U && forall u, v :: u in U && v in Succ(g, u) ==> v in U
    ensures Sweeps(g, s, k + 1).levels.Keys != Sweeps(g, s, k).levels.Keys ==>
      |U - Sweeps(g, s, k + 1).levels.Keys| < |U - Sweeps(g, s, k).levels.Keys|
    ensures Sweeps(g, s, k + 1).levels.Keys == Sweeps(g, s, k).levels.Keys ==> Sweeps(g, s, k + 1).nxt == []
  {
    var st, st' := Sweeps(g, s, k), Sweeps(g, s, k + 1);
    assert st.levels.Keys <= st'.levels.Keys by {
      SweepsState(g, s, k);
      SweepsState(g, s, k + 1);
      WithinMonotonic(g, s, k, k + 1);
    }
    assert st'.levels.Keys <= U by {
      SweepInside(g, s, k + 1, U);
    }
    assert st'.nxt != [] ==> st'.levels.Keys != st.levels.Keys by {
      SweepAddsFrontier(g, s, k);
    }
    Progress(U, st.levels.Keys, st'.levels.Keys, st'.nxt);
  }
}
