/**
 * The objects of src/plan.py: `Room`, `Door` and `Plan`, with the state they
 * update in place.  Each method is proved against the value-level theory in
 * the modules Naming, RoomRelation, Adjacency, Reach and Product.
 */
module FloorPlan {
  import opened Wrappers
  import opened Naming
  import opened Geometry
  import opened PairOrder
  import opened RoomRelation
  import opened Adjacency
  import Reach
  import opened Product

  /** A `g` element of class `Space`: its second CSS class and its outline. */
  datatype RawRoom = RawRoom(spaceClass: string, points: Polygon)

  /** A door never changes after construction, so it is a value. */
  datatype Door = Door(points: Polygon, name: string)

  /** Names of the doors whose buffered outline overlaps the room by more than 10.0. */
  function DoorsTouching(g: Oracle, room: Polygon, doors: seq<Door>): set<string> {
    set k | 0 <= k < |doors| && DoorOpensInto(g, room, doors[k].points) :: doors[k].name
  }

  lemma DoorsTouchingSnoc(g: Oracle, room: Polygon, doors: seq<Door>, k: nat)
    requires k < |doors|
    ensures DoorsTouching(g, room, doors[..k + 1]) ==
      DoorsTouching(g, room, doors[..k]) + (if DoorOpensInto(g, room, doors[k].points) then {doors[k].name} else {})
  {
    var front := doors[..k];
    var longer := doors[..k + 1];
    assert forall q :: 0 <= q < k ==> longer[q] == front[q];
    assert longer[k] == doors[k];
  }

  function DoorNames(ds: seq<Door>): set<string> {
    set d | d in ds :: d.name
  }

  lemma DoorNamesSnoc(ds: seq<Door>, d: Door)
    ensures DoorNames(ds + [d]) == DoorNames(ds) + {d.name}
  {
    assert d in ds + [d];
    assert forall e :: e in ds ==> e in ds + [d];
  }

  /** The category of every raw room, in parse order. */
  function Categories(categoryMap: map<string, string>, spaces: seq<RawRoom>): (cats: seq<string>)
    requires forall k :: 0 <= k < |spaces| ==> spaces[k].spaceClass in categoryMap
    ensures |cats| == |spaces|
    ensures forall k :: 0 <= k < |spaces| ==> cats[k] == categoryMap[spaces[k].spaceClass]
  {
    if spaces == [] then []
    else Categories(categoryMap, spaces[..|spaces| - 1]) + [categoryMap[spaces[|spaces| - 1].spaceClass]]
  }

  /** The door list the parse loop builds: the i-th threshold becomes `Door_<i+1>`. */
  function DoorsOf(thresholds: seq<Polygon>): (ds: seq<Door>)
    ensures |ds| == |thresholds|
    ensures forall i :: 0 <= i < |ds| ==> ds[i] == Door(thresholds[i], DoorName(i))
  {
    seq(|thresholds|, i requires 0 <= i < |thresholds| => Door(thresholds[i], DoorName(i)))
  }

  /** The names of rs, in order. */
  function NamesOf(rs: seq<Room>): (ns: seq<string>)
    ensures |ns| == |rs|
  {
    if rs == [] then [] else NamesOf(rs[..|rs| - 1]) + [rs[|rs| - 1].name]
  }

  /** The dictionary filled by `name2room[room.name] = room` for each room of rs in turn. */
  function ByName(rs: seq<Room>): map<string, Room> {
    if rs == [] then map[] else ByName(rs[..|rs| - 1])[rs[|rs| - 1].name := rs[|rs| - 1]]
  }

  ghost predicate DistinctRoomNames(rs: seq<Room>) {
    forall a, b :: 0 <= a < |rs| && 0 <= b < |rs| && a != b ==> rs[a].name != rs[b].name
  }

  lemma {:induction false} NamesOfAt(rs: seq<Room>)
    ensures forall k :: 0 <= k < |rs| ==> NamesOf(rs)[k] == rs[k].name
  {
    if rs != [] {
      NamesOfAt(rs[..|rs| - 1]);
    }
  }

  /** With distinct names, the dictionary has exactly the rooms' names as keys and maps each to its room. */
  lemma {:induction false} ByNameIndexes(rs: seq<Room>)
    requires DistinctRoomNames(rs)
    ensures forall n :: n in ByName(rs) <==> n in NamesOf(rs)
    ensures forall k :: 0 <= k < |rs| ==> rs[k].name in ByName(rs) && ByName(rs)[rs[k].name] == rs[k]
  {
    NamesOfAt(rs);
    if rs != [] {
      var front := rs[..|rs| - 1];
      assert DistinctRoomNames(front) by {
        assert forall k :: 0 <= k < |front| ==> front[k] == rs[k];
      }
      ByNameIndexes(front);
      NamesOfAt(front);
      assert forall k :: 0 <= k < |front| ==> front[k] == rs[k];
    }
  }

  /**
   * rs are the first |rs| rooms of the parse of spaces: outlines, categories
   * and the names the parse loop gives them.
   */
  ghost predicate ParsedPrefix(rs: seq<Room>, spaces: seq<RawRoom>, cats: seq<string>) {
    && |rs| <= |spaces| && |cats| == |spaces|
    && forall j :: 0 <= j < |rs| ==>
      rs[j].name == NameAt(cats, j) && rs[j].points == spaces[j].points && rs[j].category == cats[j]
  }

  /** The mutable fields of every room of rs still hold their initial values. */
  ghost predicate Untouched(rs: seq<Room>)
    reads rs
  {
    forall j :: 0 <= j < |rs| ==>
      rs[j].adjacentDoors == {} && rs[j].neighbours == [] && rs[j].level == None && rs[j].parent == map[]
  }

  /** Appending the next parsed room keeps both folds and both descriptions. */
  lemma ParseStep(rs: seq<Room>, spaces: seq<RawRoom>, cats: seq<string>, room: Room)
    requires ParsedPrefix(rs, spaces, cats) && Untouched(rs) && |rs| < |spaces|
    requires room.name == NameAt(cats, |rs|) && room.points == spaces[|rs|].points && room.category == cats[|rs|]
    requires room.adjacentDoors == {} && room.neighbours == [] && room.level == None && room.parent == map[]
    ensures ParsedPrefix(rs + [room], spaces, cats) && Untouched(rs + [room])
  {
    assert (rs + [room])[..|rs|] == rs;
  }

  /** Every room of rs was allocated after the enclosing method started. */
  twostate predicate AllFresh(new rs: seq<Room>) {
    forall q :: 0 <= q < |rs| ==> fresh(rs[q])
  }

  twostate lemma AllFreshSnoc(new rs: seq<Room>, new room: Room)
    requires AllFresh(rs) && fresh(room)
    ensures AllFresh(rs + [room])
  {
  }

  lemma FoldsSnoc(rs: seq<Room>, room: Room)
    ensures NamesOf(rs + [room]) == NamesOf(rs) + [room.name]
    ensures ByName(rs + [room]) == ByName(rs)[room.name := room]
  {
    assert (rs + [room])[..|rs|] == rs;
  }

  /** The rooms built by the parse loop have pairwise distinct names. */
  lemma ParsedNamesDistinct(rs: seq<Room>, spaces: seq<RawRoom>, cats: seq<string>)
    requires ParsedPrefix(rs, spaces, cats)
    ensures DistinctRoomNames(rs)
  {
    forall a, b | 0 <= a < |rs| && 0 <= b < |rs| && a != b
      ensures rs[a].name != rs[b].name
    {
      NamesDistinct(cats, a, b);
    }
  }

  /** The adjacent-door set of every room of rs, in order. */
  ghost function DoorSets(rs: seq<Room>): (ds: seq<set<string>>)
    reads rs`adjacentDoors
    ensures |ds| == |rs|
    ensures forall k :: 0 <= k < |rs| ==> ds[k] == rs[k].adjacentDoors
  {
    if rs == [] then [] else DoorSets(rs[..|rs| - 1]) + [rs[|rs| - 1].adjacentDoors]
  }

  /** The door sets ds of rooms rs after every room has collected the doors of doors that open into it. */
  function Refreshed(g: Oracle, rs: seq<Room>, ds: seq<set<string>>, doors: seq<Door>): (ds': seq<set<string>>)
    requires |ds| == |rs|
    ensures |ds'| == |rs|
  {
    seq(|rs|, k requires 0 <= k < |rs| => ds[k] + DoorsTouching(g, rs[k].points, doors))
  }

  /** Collecting the doors a second time adds nothing: `get_adjacent_doors` is idempotent. */
  lemma RefreshedTwice(g: Oracle, rs: seq<Room>, ds: seq<set<string>>, doors: seq<Door>)
    requires |ds| == |rs|
    ensures Refreshed(g, rs, Refreshed(g, rs, ds, doors), doors) == Refreshed(g, rs, ds, doors)
  {
    var once := Refreshed(g, rs, ds, doors);
    forall k | 0 <= k < |rs| ensures Refreshed(g, rs, once, doors)[k] == once[k] {
      assert once[k] + DoorsTouching(g, rs[k].points, doors) == once[k];
    }
  }

  /** Every room of rs has its door set refreshed from doors, and nothing else about the door sets changed. */
  twostate predicate DoorsRefreshed(g: Oracle, rs: seq<Room>, doors: seq<Door>)
    reads rs`adjacentDoors
  {
    DoorSets(rs) == Refreshed(g, rs, old(DoorSets(rs)), doors)
  }

  /** The neighbour list of every room of rs, in order. */
  ghost function NeighbourLists(rs: seq<Room>): (ls: seq<seq<Room>>)
    reads rs`neighbours
    ensures |ls| == |rs|
    ensures forall k :: 0 <= k < |rs| ==> ls[k] == rs[k].neighbours
  {
    if rs == [] then [] else NeighbourLists(rs[..|rs| - 1]) + [rs[|rs| - 1].neighbours]
  }

  /** What the relation rules see of rooms rs when their adjacent-door sets are ds. */
  function Describe(rs: seq<Room>, ds: seq<set<string>>): (data: seq<RoomData>)
    requires |ds| == |rs|
    ensures |data| == |rs|
    ensures forall k :: 0 <= k < |rs| ==> data[k] == RoomData(rs[k].name, rs[k].points, ds[k])
  {
    seq(|rs|, k requires 0 <= k < |rs| => RoomData(rs[k].name, rs[k].points, ds[k]))
  }

  /** The rooms of rs at the positions ix, in the order of ix. */
  function RoomsAt(rs: seq<Room>, ix: seq<nat>): (r: seq<Room>)
    requires forall k :: 0 <= k < |ix| ==> ix[k] < |rs|
    ensures |r| == |ix|
    ensures forall m :: 0 <= m < |ix| ==> r[m] == rs[ix[m]]
  {
    if ix == [] then [] else RoomsAt(rs, ix[..|ix| - 1]) + [rs[ix[|ix| - 1]]]
  }

  /** base followed by the rooms of rs at the positions ix. */
  function Extend(base: seq<Room>, rs: seq<Room>, ix: seq<nat>): seq<Room>
    requires forall k :: 0 <= k < |ix| ==> ix[k] < |rs|
  {
    if ix == [] then base else Extend(base, rs, ix[..|ix| - 1]) + [rs[ix[|ix| - 1]]]
  }

  lemma {:induction false} ExtendIsAppend(base: seq<Room>, rs: seq<Room>, ix: seq<nat>)
    requires forall k :: 0 <= k < |ix| ==> ix[k] < |rs|
    ensures Extend(base, rs, ix) == base + RoomsAt(rs, ix)
  {
    if ix != [] {
      ExtendIsAppend(base, rs, ix[..|ix| - 1]);
    }
  }

  lemma ExtendSnoc(base: seq<Room>, rs: seq<Room>, ix: seq<nat>, j: nat)
    requires forall k :: 0 <= k < |ix| ==> ix[k] < |rs|
    requires j < |rs|
    ensures Extend(base, rs, ix + [j]) == Extend(base, rs, ix) + [rs[j]]
  {
    assert (ix + [j])[..|ix|] == ix;
  }

  /** Appending to a concatenation appends to its second part. */
  lemma SnocAssoc<T>(a: seq<T>, b: seq<T>, x: T)
    ensures a + b + [x] == a + (b + [x])
  {
  }

  /** The relation table of distinctly named rooms names only keys of their name index. */
  lemma TableMentionsRooms(g: Oracle, rs: seq<Room>, ds: seq<set<string>>)
    requires |ds| == |rs| && DistinctRoomNames(rs)
    ensures DistinctNames(Describe(rs, ds))
    ensures Mentions(ByName(rs).Keys, RelationTable(g, Describe(rs, ds)))
  {
    var data := Describe(rs, ds);
    ByNameIndexes(rs);
    TableNamesRooms(g, data);
    assert RoomNames(data) <= ByName(rs).Keys;
  }

  /** A vertex map that agrees with the name index and holds every room's name is the name index. */
  lemma VerticesComplete(vs: map<string, Room>, rs: seq<Room>)
    requires DistinctRoomNames(rs)
    requires forall n :: n in vs ==> n in ByName(rs) && vs[n] == ByName(rs)[n]
    requires forall q :: 0 <= q < |rs| ==> rs[q].name in vs
    ensures vs == ByName(rs)
  {
    ByNameIndexes(rs);
    NamesOfAt(rs);
    assert vs.Keys == ByName(rs).Keys;
  }

  /** names and byName are the name list and the name index of rs, whose names are distinct. */
  ghost predicate RoomIndex(rs: seq<Room>, names: seq<string>, byName: map<string, Room>) {
    names == NamesOf(rs) && byName == ByName(rs) && DistinctRoomNames(rs)
  }

  /** The doors are numbered in order, count counts them, and byName indexes them by name. */
  ghost predicate DoorIndex(ds: seq<Door>, count: nat, byName: map<string, Door>) {
    && count == |ds|
    && (forall i :: 0 <= i < |ds| ==> ds[i].name == DoorName(i))
    && byName.Keys == DoorNames(ds)
    && (forall i :: 0 <= i < |ds| ==> byName[ds[i].name] == ds[i])
  }

  /** Every vertex is the room of that name. */
  ghost predicate VerticesIndexed(vs: map<string, Room>, byName: map<string, Room>) {
    forall n :: n in vs ==> n in byName && vs[n] == byName[n]
  }

  /** Every entry of xs is one of the rooms rs. */
  ghost predicate AllIn(xs: seq<Room>, rs: seq<Room>) {
    forall m :: 0 <= m < |xs| ==> xs[m] in rs
  }

  lemma AllInAppend(xs: seq<Room>, ys: seq<Room>, rs: seq<Room>)
    requires AllIn(xs, rs) && AllIn(ys, rs)
    ensures AllIn(xs + ys, rs)
  {
    forall m | 0 <= m < |xs + ys| ensures (xs + ys)[m] in rs {
      if m >= |xs| {
        assert (xs + ys)[m] == ys[m - |xs|];
      }
    }
  }

  /** Neighbour lists hold rooms of rs only. */
  ghost predicate NeighboursWithin(rs: seq<Room>)
    reads rs`neighbours
  {
    forall k :: 0 <= k < |rs| ==> AllIn(rs[k].neighbours, rs)
  }

  /** Every room k of rs has gained, after its earlier neighbours, the rooms data links to it, in order. */
  twostate predicate NeighboursGrown(g: Oracle, rs: seq<Room>, data: seq<RoomData>)
    requires |data| == |rs|
    reads rs`neighbours
  {
    forall k :: 0 <= k < |rs| ==> rs[k].neighbours == old(rs[k].neighbours) + RoomsAt(rs, NeighbourIndices(g, data, k))
  }

  /** Lists that grew room by room as Grown says are Grown's result. */
  lemma GrownFrom(g: Oracle, rs: seq<Room>, ls: seq<seq<Room>>, ls': seq<seq<Room>>, data: seq<RoomData>)
    requires |ls| == |rs| && |ls'| == |rs| && |data| == |rs|
    requires forall k :: 0 <= k < |rs| ==> ls'[k] == ls[k] + RoomsAt(rs, NeighbourIndices(g, data, k))
    ensures ls' == Grown(g, rs, ls, data)
  {
  }

  /** Growing lists by rooms of rs keeps them within rs. */
  lemma GrownWithin(g: Oracle, rs: seq<Room>, ls: seq<seq<Room>>, data: seq<RoomData>)
    requires |ls| == |rs| && |data| == |rs|
    requires forall k :: 0 <= k < |rs| ==> AllIn(ls[k], rs)
    ensures forall k :: 0 <= k < |rs| ==> AllIn(Grown(g, rs, ls, data)[k], rs)
  {
    forall k | 0 <= k < |rs| ensures AllIn(Grown(g, rs, ls, data)[k], rs) {
      var add := RoomsAt(rs, NeighbourIndices(g, data, k));
      assert AllIn(add, rs);
      AllInAppend(ls[k], add, rs);
    }
  }

  /** Door sets that grew room by room as Refreshed says are Refreshed's result. */
  lemma RefreshedFrom(g: Oracle, rs: seq<Room>, ds: seq<set<string>>, ds': seq<set<string>>, doors: seq<Door>)
    requires |ds| == |rs| && |ds'| == |rs|
    requires forall k :: 0 <= k < |rs| ==> ds'[k] == ds[k] + DoorsTouching(g, rs[k].points, doors)
    ensures ds' == Refreshed(g, rs, ds, doors)
  {
  }

  /** Rooms before i have gained the rooms data links to them, in order; the others are untouched. */
  twostate predicate LinkedBefore(g: Oracle, rs: seq<Room>, data: seq<RoomData>, i: nat)
    requires |data| == |rs|
    reads rs`neighbours
  {
    forall q :: 0 <= q < |rs| ==>
      rs[q].neighbours == old(rs[q].neighbours) + if q < i then RoomsAt(rs, NeighbourIndices(g, data, q)) else []
  }

  /** The neighbour lists ls of rooms rs after each room k has gained the rooms data links to it, in order. */
  function Grown(g: Oracle, rs: seq<Room>, ls: seq<seq<Room>>, data: seq<RoomData>): (ls': seq<seq<Room>>)
    requires |ls| == |rs| && |data| == |rs|
    ensures |ls'| == |rs|
  {
    seq(|rs|, k requires 0 <= k < |rs| => ls[k] + RoomsAt(rs, NeighbourIndices(g, data, k)))
  }

  /** Reading a `defaultdict(int)`: a missing category reads as 0. */
  function Tally(counts: map<string, nat>, c: string): nat {
    if c in counts then counts[c] else 0
  }

  /** A counter that agrees with Count on every category holds the multiplicities of the categories. */
  lemma CountsAreMultiplicities(counts: map<string, nat>, cats: seq<string>)
    requires forall c :: Tally(counts, c) == Count(cats, c)
    ensures forall c :: Tally(counts, c) == multiset(cats)[c]
  {
    forall c ensures Tally(counts, c) == multiset(cats)[c] {
      CountIsMultiplicity(cats, c);
    }
  }

  /** The graph `explore` walks: every room of rs with its neighbour list as successors. */
  ghost function RoomGraph(rs: seq<Room>): (g: Reach.Graph<Room>)
    reads rs`neighbours
    ensures g.Keys == Reach.Elems(rs)
    ensures forall r :: r in rs ==> g[r] == r.neighbours
  {
    if rs == [] then map[]
    else
      assert Reach.Elems(rs) == Reach.Elems(rs[..|rs| - 1]) + {rs[|rs| - 1]};
      RoomGraph(rs[..|rs| - 1])[rs[|rs| - 1] := rs[|rs| - 1].neighbours]
  }

  /** Every successor of a room of rs in g is a room of rs. */
  ghost predicate Closed(g: Reach.Graph<Room>, rs: seq<Room>) {
    forall u, v :: u in Reach.Elems(rs) && v in Reach.Succ(g, u) ==> v in Reach.Elems(rs)
  }

  lemma SuccInRooms(g: Reach.Graph<Room>, rs: seq<Room>, u: Room)
    requires Closed(g, rs) && u in rs
    ensures AllIn(Reach.Succ(g, u), rs)
  {
    assert u in Reach.Elems(rs);
    ElemsAllIn(Reach.Succ(g, u), rs);
  }

  /** When neighbour lists stay inside rs, every successor of a room of rs is a room of rs. */
  lemma RoomGraphClosed(rs: seq<Room>)
    requires NeighboursWithin(rs)
    ensures Closed(RoomGraph(rs), rs)
  {
    var g := RoomGraph(rs);
    forall u, v | u in Reach.Elems(rs) && v in Reach.Succ(g, u) ensures v in Reach.Elems(rs) {
      var q :| 0 <= q < |rs| && rs[q] == u;
      var m :| 0 <= m < |u.neighbours| && u.neighbours[m] == v;
      assert AllIn(rs[q].neighbours, rs);
    }
  }

  /**
   * The BFS over the rooms' graph after k sweeps stays among the rooms:
   * levelled rooms and the frontier are rooms of rs, recorded parents have
   * levels, and a sweep over a non-empty frontier either levels a new room
   * or ends with nothing new and an empty frontier.
   */
  lemma LayerInRooms(g: Reach.Graph<Room>, rs: seq<Room>, s: Room, k: nat)
    requires Closed(g, rs) && s in rs
    ensures var st := Reach.Sweeps(g, s, k);
      && Reach.ParentsLevelled(Reach.Layer(st.levels, [], st.par))
      && st.levels.Keys <= Reach.Elems(rs)
      && AllIn(st.nxt, rs)
    ensures var st, st' := Reach.Sweeps(g, s, k), Reach.Sweeps(g, s, k + 1);
      st'.levels.Keys != st.levels.Keys ==> |Reach.Elems(rs) - st'.levels.Keys| < |Reach.Elems(rs) - st.levels.Keys|
    ensures var st, st' := Reach.Sweeps(g, s, k), Reach.Sweeps(g, s, k + 1);
      st'.levels.Keys == st.levels.Keys ==> st'.nxt == []
  {
    Reach.SweepFacts(g, s, k, Reach.Elems(rs));
    ElemsAllIn(Reach.Sweeps(g, s, k).nxt, rs);
  }

  /** The loop state after k sweeps, seen through Sweeps: what ExpandLayer needs and what one more sweep gives. */
  lemma SweepStep(g: Reach.Graph<Room>, rs: seq<Room>, s: Room, k: nat,
                  levels: map<Room, nat>, frontier: seq<Room>, par: map<Room, Room>)
    requires Closed(g, rs) && s in rs
    requires Reach.Layer(levels, frontier, par) == Reach.Sweeps(g, s, k)
    ensures AllIn(frontier, rs) && Reach.ParentsLevelled(Reach.Layer(levels, [], par)) && levels.Keys <= Reach.Elems(rs)
    ensures Reach.ScanAll(g, Reach.Layer(levels, [], par), frontier, k + 1) == Reach.Sweeps(g, s, k + 1)
    ensures var st' := Reach.Sweeps(g, s, k + 1);
      st'.levels.Keys != levels.Keys ==> |Reach.Elems(rs) - st'.levels.Keys| < |Reach.Elems(rs) - levels.Keys|
    ensures var st' := Reach.Sweeps(g, s, k + 1);
      st'.levels.Keys == levels.Keys ==> st'.nxt == []
  {
    LayerInRooms(g, rs, s, k);
  }

  lemma ElemsAllIn(xs: seq<Room>, rs: seq<Room>)
    requires forall u :: u in xs ==> u in Reach.Elems(rs)
    ensures AllIn(xs, rs)
  {
    forall m | 0 <= m < |xs| ensures xs[m] in rs {
      assert xs[m] in Reach.Elems(rs);
    }
  }

  /** The level field of r once explore has built levels from s: its level when reached, else what it held. */
  function Levelled(l0: Option<nat>, levels: map<Room, nat>, s: Room, r: Room): Option<nat> {
    if r in levels && r != s then Some(levels[r]) else l0
  }

  /** The parent field of r once explore has built levels and parents from s: its own name bound to its parent when reached. */
  function Parented(p0: map<string, Room>, levels: map<Room, nat>, par: map<Room, Room>, s: Room, r: Room): map<string, Room> {
    if r in levels && r != s && r in par then p0[r.name := par[r]] else p0
  }

  /** Every room of rs has in g exactly its neighbour list. */
  ghost predicate Wired(g: Reach.Graph<Room>, rs: seq<Room>)
    reads rs`neighbours
  {
    forall r :: r in rs ==> r in g && g[r] == r.neighbours
  }

  /**
   * The level and parent fields of the rooms of rs hold what explore has
   * written once it has built levels and par from s, over the fields l0 and p0
   * the rooms had before.
   */
  ghost predicate Marked(rs: seq<Room>, l0: map<Room, Option<nat>>, p0: map<Room, map<string, Room>>,
                         levels: map<Room, nat>, par: map<Room, Room>, s: Room)
    reads rs`level, rs`parent
  {
    forall r :: r in rs ==>
      && r in l0 && r in p0
      && r.level == Levelled(l0[r], levels, s, r)
      && r.parent == Parented(p0[r], levels, par, s, r)
  }

  /** Before the first sweep only s is levelled, so every room still holds its fields l0 and p0. */
  lemma MarkedStart(rs: seq<Room>, l0: map<Room, Option<nat>>, p0: map<Room, map<string, Room>>, s: Room)
    requires forall r :: r in rs ==> r in l0 && r in p0 && l0[r] == r.level && p0[r] == r.parent
    ensures Marked(rs, l0, p0, map[s := 0], map[], s)
  {
  }

  /** A sweep that adds the rooms of levels' not in levels keeps each room's level field in the Levelled form. */
  lemma LevelledStep(l0: Option<nat>, l1: Option<nat>, l2: Option<nat>,
                     levels: map<Room, nat>, levels': map<Room, nat>, s: Room, r: Room)
    requires s in levels && (r in levels ==> r in levels' && levels'[r] == levels[r])
    requires l1 == Levelled(l0, levels, s, r)
    requires l2 == if r in levels' && r !in levels then Some(levels'[r]) else l1
    ensures l2 == Levelled(l0, levels', s, r)
  {
  }

  /** A sweep that adds the rooms of levels' not in levels keeps each room's parent field in the Parented form. */
  lemma ParentedStep(p0: map<string, Room>, p1: map<string, Room>, p2: map<string, Room>,
                     levels: map<Room, nat>, levels': map<Room, nat>, par: map<Room, Room>, par': map<Room, Room>, s: Room, r: Room)
    requires s in levels && (r in levels ==> r in levels') && (r in par ==> r in par' && par'[r] == par[r])
    requires r in levels && r != s ==> r in par
    requires r in levels' && r !in levels ==> r in par'
    requires p1 == Parented(p0, levels, par, s, r)
    requires p2 == if r in levels' && r !in levels then p1[r.name := par'[r]] else p1
    ensures p2 == Parented(p0, levels', par', s, r)
  {
  }

  /** levels' and par' keep every entry of levels and par. */
  ghost predicate Extends(levels: map<Room, nat>, par: map<Room, Room>, levels': map<Room, nat>, par': map<Room, Room>) {
    && (forall r :: r in levels ==> r in levels' && levels'[r] == levels[r])
    && (forall r :: r in par ==> r in par' && par'[r] == par[r])
  }

  /**
   * Each room of rs that levels' levels and levels does not has its level
   * and, under its own name, its parent in par' written; every other room of
   * rs is as it was.
   */
  twostate predicate Stamped(rs: seq<Room>, levels: map<Room, nat>, levels': map<Room, nat>, par': map<Room, Room>)
    reads rs`level, rs`parent
  {
    forall q :: 0 <= q < |rs| ==>
      StampedAt(rs[q], levels, levels', par', old(rs[q].level), rs[q].level, old(rs[q].parent), rs[q].parent)
  }

  /** Stamped, with the fields rs had when levels was current recorded in l0 and p0. */
  ghost predicate StampedSince(rs: seq<Room>, l0: seq<Option<nat>>, p0: seq<map<string, Room>>,
                               levels: map<Room, nat>, levels': map<Room, nat>, par': map<Room, Room>)
    reads rs`level, rs`parent
  {
    && |l0| == |rs| && |p0| == |rs|
    && forall q :: 0 <= q < |rs| ==> StampedAt(rs[q], levels, levels', par', l0[q], rs[q].level, p0[q], rs[q].parent)
  }

  /** Stamped for one room r whose level went from l to l' and whose parent field from p to p'. */
  ghost predicate StampedAt(r: Room, levels: map<Room, nat>, levels': map<Room, nat>, par': map<Room, Room>,
                            l: Option<nat>, l': Option<nat>, p: map<string, Room>, p': map<string, Room>)
  {
    if r in levels' && r !in levels then r in par' && l' == Some(levels'[r]) && p' == p[r.name := par'[r]]
    else l' == l && p' == p
  }

  /** Two stampings in a row, the second extending the maps of the first, make one. */
  lemma StampedTrans(r: Room, L0: map<Room, nat>, L1: map<Room, nat>, P1: map<Room, Room>, L2: map<Room, nat>, P2: map<Room, Room>,
                     l0: Option<nat>, l1: Option<nat>, l2: Option<nat>, p0: map<string, Room>, p1: map<string, Room>, p2: map<string, Room>)
    requires L0.Keys <= L1.Keys && Extends(L1, P1, L2, P2)
    requires StampedAt(r, L0, L1, P1, l0, l1, p0, p1) && StampedAt(r, L1, L2, P2, l1, l2, p1, p2)
    ensures StampedAt(r, L0, L2, P2, l0, l2, p0, p2)
  {
  }

  /** `out[l.name] = levels[l]` for every key: one key per name, holding that room's level. */
  ghost predicate NamesLevels(levels: map<Room, nat>, out: map<string, nat>) {
    && (forall l :: l in levels ==> l.name in out)
    && (forall n :: n in out ==> exists l :: l in levels && l.name == n && out[n] == levels[l])
  }

  /** With distinct names, the name-keyed map holds exactly the levelled rooms, with their levels. */
  lemma NamedLevels(rs: seq<Room>, levels: map<Room, nat>, out: map<string, nat>, r: Room)
    requires DistinctRoomNames(rs) && levels.Keys <= Reach.Elems(rs) && r in rs
    requires NamesLevels(levels, out)
    ensures r.name in out <==> r in levels
    ensures r in levels ==> out[r.name] == levels[r]
  {
    if r.name in out {
      var l :| l in levels && l.name == r.name && out[r.name] == levels[l];
      assert l in Reach.Elems(rs);
      var a :| 0 <= a < |rs| && rs[a] == l;
      var b :| 0 <= b < |rs| && rs[b] == r;
    }
  }

  /**
   * What explore has found from s over the rooms rs: out names s at level 0,
   * names exactly the reachable rooms, with their level in levels and their
   * distance from s, and every reached room other than s has a parent in par
   * one level lower that lists it as a neighbour.
   */
  ghost predicate Explored(g: Reach.Graph<Room>, rs: seq<Room>, s: Room,
                           levels: map<Room, nat>, par: map<Room, Room>, out: map<string, nat>)
    reads rs`neighbours
  {
    && s.name in out && out[s.name] == 0
    && (forall r :: r in rs ==> (r.name in out <==> r in levels) && (r.name in out <==> Reach.Reachable(g, s, r)))
    && (forall r :: r in rs && r.name in out ==> r in levels && out[r.name] == levels[r] && Reach.AtDistance(g, s, r, out[r.name]))
    && (forall r :: r in rs && r.name in out && r != s ==>
          r in par && par[r] in rs && par[r].name in out && out[par[r].name] + 1 == out[r.name] && r in par[r].neighbours)
    && (forall n :: n in out ==> n in ByName(rs))
  }

  /**
   * What explore from s over the rooms rs promises: the result maps the name
   * of every room reachable from s in g, and of no other room, to its
   * distance from s (the number of hops of a shortest walk), and names only
   * rooms of rs.  Every reached room other than s holds that distance as its
   * level and has recorded under its own name, and nowhere else, the room it
   * was reached from: a reached room one hop closer that lists it as a
   * neighbour.  s and the unreached rooms keep their level and parent fields.
   */
  twostate predicate ExploreResult(g: Reach.Graph<Room>, rs: seq<Room>, s: Room, out: map<string, nat>)
    reads rs`level, rs`parent, rs`neighbours
  {
    && s.name in out && out[s.name] == 0
    && (forall r :: r in rs ==> (r.name in out <==> Reach.Reachable(g, s, r)))
    && (forall r :: r in rs && r.name in out ==> Reach.AtDistance(g, s, r, out[r.name]))
    && (forall n :: n in out ==> n in ByName(rs))
    && (forall r :: r in rs && r.name in out && r != s ==>
          && r.level == Some(out[r.name]) && r.name in r.parent
          && r.parent == old(r.parent)[r.name := r.parent[r.name]]
          && r.parent[r.name] in rs && r.parent[r.name].name in out
          && out[r.parent[r.name].name] + 1 == out[r.name] && r in r.parent[r.name].neighbours)
    && (forall r :: r in rs && (r.name !in out || r == s) ==> r.level == old(r.level) && r.parent == old(r.parent))
  }

  lemma ExploreDone(g: Reach.Graph<Room>, rs: seq<Room>, s: Room, k: nat,
                    levels: map<Room, nat>, par: map<Room, Room>, out: map<string, nat>)
    requires forall r :: r in rs ==> r in g && g[r] == r.neighbours
    requires Closed(g, rs) && DistinctRoomNames(rs) && s in rs
    requires Reach.Layer(levels, [], par) == Reach.Sweeps(g, s, k) && NamesLevels(levels, out)
    ensures Explored(g, rs, s, levels, par, out)
  {
    Reach.SweepsDone(g, s, k);
    Reach.WithinClosed(g, s, k, Reach.Elems(rs));
    ByNameIndexes(rs);
    forall r | r in rs
      ensures (r.name in out <==> r in levels) && (r in levels ==> out[r.name] == levels[r])
    {
      NamedLevels(rs, levels, out, r);
    }
    forall r | r in rs && r.name in out && r != s
      ensures r in par && par[r] in rs && par[r].name in out && out[par[r].name] + 1 == out[r.name] && r in par[r].neighbours
    {
      var p := par[r];
      assert p in Reach.Elems(rs);
      NamedLevels(rs, levels, out, p);
      assert Reach.Succ(g, p) == p.neighbours;
    }
    forall n | n in out ensures n in ByName(rs) {
      var l :| l in levels && l.name == n && out[n] == levels[l];
      assert l in Reach.Elems(rs);
      var k :| 0 <= k < |rs| && rs[k] == l;
    }
  }

  /** The `defaultdict(int)` shared by the parse loop and every Room it creates. */
  class TypeCounter {
    var counts: map<string, nat>

    constructor()
      ensures counts == map[]
    {
      counts := map[];
    }
  }

  class Room {
    const points: Polygon
    /** `self.type`, the category the class label maps to. */
    const category: string
    const name: string
    var adjacentDoors: set<string>
    var neighbours: seq<Room>
    /** `self.level`: `{}` until explore reaches the room, then its BFS level. */
    var level: Option<nat>
    var parent: map<string, Room>

    /**
     * The name is the category and the counter's value plus one; the
     * counter for that category goes up by one.  A class label absent from
     * the category table raises KeyError in the source.
     */
    constructor(points: Polygon, spaceClass: string, categoryMap: map<string, string>, counter: TypeCounter)
      requires spaceClass in categoryMap
      modifies counter
      ensures this.points == points && category == categoryMap[spaceClass]
      ensures name == RoomName(category, Tally(old(counter.counts), categoryMap[spaceClass]) + 1)
      ensures counter.counts == old(counter.counts)[category := Tally(old(counter.counts), categoryMap[spaceClass]) + 1]
      ensures adjacentDoors == {} && neighbours == [] && level == None && parent == map[]
    {
      this.points := points;
      var c := categoryMap[spaceClass];
      category := c;
      name := RoomName(c, Tally(counter.counts, c) + 1);
      adjacentDoors := {};
      neighbours := [];
      level := None;
      parent := map[];
      new;
      counter.counts := counter.counts[c := Tally(counter.counts, c) + 1];
    }

    /** Adds the name of every door that opens into this room; nothing is removed. */
    method GetAdjacentDoors(g: Oracle, doors: seq<Door>)
      modifies this`adjacentDoors
      ensures adjacentDoors == old(adjacentDoors) + DoorsTouching(g, points, doors)
    {
      var k := 0;
      while k < |doors|
        invariant 0 <= k <= |doors|
        invariant adjacentDoors == old(adjacentDoors) + DoorsTouching(g, points, doors[..k])
      {
        DoorsTouchingSnoc(g, points, doors, k);
        if DoorOpensInto(g, points, doors[k].points) {
          adjacentDoors := adjacentDoors + {doors[k].name};
        }
        k := k + 1;
      }
      assert doors[..k] == doors;
    }
  }

  /** A growable list, as `bt` uses Python lists: append at the end, pop from the end. */
  class MutableList<T> {
    var items: seq<T>

    constructor()
      ensures items == []
    {
      items := [];
    }

    method Append(x: T)
      modifies this
      ensures items == old(items) + [x]
    {
      items := items + [x];
    }

    /** `list.pop()` raises IndexError on an empty list; `bt` only pops after an append. */
    method Pop() returns (x: T)
      requires items != []
      modifies this
      ensures items == old(items)[..|old(items)| - 1] && x == old(items)[|old(items)| - 1]
    {
      x := items[|items| - 1];
      items := items[..|items| - 1];
    }
  }

  class Plan {
    /** The overlap measurements the source obtains from shapely. */
    const geom: Oracle
    const rooms: seq<Room>
    const name2room: map<string, Room>
    const doors: seq<Door>
    const name2door: map<string, Door>
    var relation: seq<Relation>
    const roomTypeCount: TypeCounter
    const doorCount: nat
    const roomNames: seq<string>
    var vertices: map<string, Room>

    /**
     * What every method keeps: roomNames and name2room are the name list and
     * the name index of rooms, whose names are distinct; doors are numbered
     * in order and indexed by name; the relation names known rooms; the
     * vertex map is part of name2room; neighbour lists hold plan rooms.
     */
    ghost predicate Valid()
      reads this, rooms`neighbours
    {
      Indexed() && NeighboursWithin(rooms)
    }

    /** The part of Valid that depends on the plan's own fields only. */
    ghost predicate Indexed()
      reads this
    {
      && RoomIndex(rooms, roomNames, name2room)
      && DoorIndex(doors, doorCount, name2door)
      && Mentions(name2room.Keys, relation)
      && VerticesIndexed(vertices, name2room)
    }

    /** The rooms as the relation rules see them. */
    ghost function Snapshot(): (rs: seq<RoomData>)
      reads rooms`adjacentDoors
      ensures |rs| == |rooms|
    {
      Describe(rooms, DoorSets(rooms))
    }

    /**
     * Parses the rooms and the doors in document order.  Room k gets the
     * name `<category>_<n>` where n counts the rooms 0..k of its category;
     * the counter ends at the number of rooms of each category; door i is
     * `Door_<i+1>`.
     */
    constructor(spaces: seq<RawRoom>, thresholds: seq<Polygon>, categoryMap: map<string, string>, geom: Oracle)
      requires forall k :: 0 <= k < |spaces| ==> spaces[k].spaceClass in categoryMap
      ensures Valid()
      ensures this.geom == geom && fresh(roomTypeCount)
      ensures AllFresh(rooms)
      ensures |rooms| == |spaces| && ParsedPrefix(rooms, spaces, Categories(categoryMap, spaces)) && Untouched(rooms)
      ensures forall c :: Tally(roomTypeCount.counts, c) == multiset(Categories(categoryMap, spaces))[c]
      ensures doors == DoorsOf(thresholds)
      ensures relation == [] && vertices == map[]
    {
      var counter, rs, names, byName, ds, count, byDoorName := ParsePlan(spaces, thresholds, categoryMap);
      this.geom := geom;
      roomTypeCount := counter;
      rooms, name2room, roomNames := rs, byName, names;
      doors, doorCount, name2door := ds, count, byDoorName;
      relation := [];
      vertices := map[];
      new;
      ParsedValid();
    }

    /** Freshly parsed fields, with no relation and no vertex yet, satisfy the plan invariant. */
    lemma ParsedValid()
      requires RoomIndex(rooms, roomNames, name2room) && DoorIndex(doors, doorCount, name2door)
      requires relation == [] && vertices == map[] && Untouched(rooms)
      ensures Valid()
    {
    }

    /** The two parse loops of the constructor, with what they establish about the parsed values. */
    static method ParsePlan(spaces: seq<RawRoom>, thresholds: seq<Polygon>, categoryMap: map<string, string>)
      returns (counter: TypeCounter, rs: seq<Room>, names: seq<string>, byName: map<string, Room>,
               ds: seq<Door>, count: nat, byDoorName: map<string, Door>)
      requires forall k :: 0 <= k < |spaces| ==> spaces[k].spaceClass in categoryMap
      ensures fresh(counter) && AllFresh(rs)
      ensures RoomIndex(rs, names, byName) && DoorIndex(ds, count, byDoorName)
      ensures |rs| == |spaces| && ParsedPrefix(rs, spaces, Categories(categoryMap, spaces)) && Untouched(rs)
      ensures NeighboursWithin(rs)
      ensures forall c :: Tally(counter.counts, c) == multiset(Categories(categoryMap, spaces))[c]
      ensures ds == DoorsOf(thresholds)
    {
      counter := new TypeCounter();
      rs, byName, names := ParseRooms(spaces, categoryMap, counter);
      ghost var cats := Categories(categoryMap, spaces);
      ParsedNamesDistinct(rs, spaces, cats);
      CountsAreMultiplicities(counter.counts, cats);
      ds, count, byDoorName := ParseDoors(thresholds);
    }

    /**
     * One iteration of the loop over the `Space` groups, `Room(r, self.room_type_count)`,
     * described in parse-order terms: the k-th room gets NameAt(cats, k) and
     * the counter then counts the first k + 1 categories.
     */
    static method NewRoom(raw: RawRoom, categoryMap: map<string, string>, counter: TypeCounter,
                          ghost cats: seq<string>, ghost k: nat, ghost earlier: seq<Room>)
      returns (room: Room)
      requires k < |cats| && raw.spaceClass in categoryMap && categoryMap[raw.spaceClass] == cats[k]
      requires Untouched(earlier)
      requires forall c :: Tally(counter.counts, c) == Count(cats[..k], c)
      modifies counter
      ensures fresh(room)
      ensures room.name == NameAt(cats, k) && room.points == raw.points && room.category == cats[k]
      ensures room.adjacentDoors == {} && room.neighbours == [] && room.level == None && room.parent == map[]
      ensures forall c :: Tally(counter.counts, c) == Count(cats[..k + 1], c)
      ensures Untouched(earlier)
    {
      assert cats[..k + 1][..k] == cats[..k];
      room := new Room(raw.points, raw.spaceClass, categoryMap, counter);
    }

    /**
     * The loop over the `Space` groups: the rooms in parse order, their name
     * list and their name index; the counter ends at the number of rooms of
     * each category.
     */
    static method ParseRooms(spaces: seq<RawRoom>, categoryMap: map<string, string>, counter: TypeCounter)
      returns (rs: seq<Room>, byName: map<string, Room>, names: seq<string>)
      requires forall k :: 0 <= k < |spaces| ==> spaces[k].spaceClass in categoryMap
      requires counter.counts == map[]
      modifies counter
      ensures |rs| == |spaces| && AllFresh(rs)
      ensures names == NamesOf(rs) && byName == ByName(rs)
      ensures ParsedPrefix(rs, spaces, Categories(categoryMap, spaces)) && Untouched(rs)
      ensures forall c :: Tally(counter.counts, c) == Count(Categories(categoryMap, spaces), c)
    {
      ghost var cats := Categories(categoryMap, spaces);
      rs, names, byName := [], [], map[];
      var k := 0;
      while k < |spaces|
        invariant 0 <= k <= |spaces| && |rs| == k && AllFresh(rs)
        invariant names == NamesOf(rs) && byName == ByName(rs)
        invariant ParsedPrefix(rs, spaces, cats) && Untouched(rs)
        invariant forall c :: Tally(counter.counts, c) == Count(cats[..k], c)
      {
        var room := NewRoom(spaces[k], categoryMap, counter, cats, k, rs);
        ParseStep(rs, spaces, cats, room);
        FoldsSnoc(rs, room);
        AllFreshSnoc(rs, room);
        rs := rs + [room];
        byName := byName[room.name := room];
        names := names + [room.name];
        k := k + 1;
      }
      assert cats[..k] == cats;
    }

    /**
     * The loop over the `Threshold` groups: door i is `Door_<i+1>`, the door
     * counter ends at the number of doors, and the name index maps every
     * door's name to it.
     */
    static method ParseDoors(thresholds: seq<Polygon>) returns (ds: seq<Door>, count: nat, byName: map<string, Door>)
      ensures ds == DoorsOf(thresholds) && count == |thresholds|
      ensures byName.Keys == DoorNames(ds)
      ensures forall q :: 0 <= q < |ds| ==> byName[ds[q].name] == ds[q]
    {
      ds, count, byName := [], 0, map[];
      var i := 0;
      while i < |thresholds|
        invariant 0 <= i <= |thresholds|
        invariant count == i
        invariant ds == DoorsOf(thresholds[..i])
        invariant byName.Keys == DoorNames(ds)
        invariant forall q :: 0 <= q < |ds| ==> byName[ds[q].name] == ds[q]
      {
        forall q | 0 <= q < i {
          DoorNameInjective(q, i);
        }
        var door := Door(thresholds[i], DoorName(count));
        DoorNamesSnoc(ds, door);
        ds := ds + [door];
        count := count + 1;
        byName := byName[door.name := door];
        i := i + 1;
        assert ds == DoorsOf(thresholds[..i]);
      }
      assert thresholds[..i] == thresholds;
    }

    /**
     * Registers a room as a graph vertex unless a vertex of that name is
     * already present; the result says whether it was added.
     */
    method AddVertex(room: Room) returns (added: bool)
      modifies this`vertices
      ensures added <==> room.name !in old(vertices)
      ensures vertices == if added then old(vertices)[room.name := room] else old(vertices)
    {
      if room.name !in vertices {
        vertices := vertices[room.name := room];
        added := true;
      } else {
        added := false;
      }
    }

    /**
     * The adjacency dictionary read off the relation triples: one entry per
     * room name, each non-zero triple written in both directions.  A triple
     * naming an unknown room raises KeyError in the source.
     */
    method GetAdjacencyList() returns (adj: AdjList)
      requires Mentions(name2room.Keys, relation)
      ensures adj == BuildAdj(name2room.Keys, relation)
    {
      var rels := relation;
      ghost var names := name2room.Keys;
      adj := map n | n in name2room :: map[];
      var k := 0;
      while k < |rels|
        invariant 0 <= k <= |rels| && adj == BuildAdjPrefix(names, rels, k)
      {
        var r := rels[k];
        if r.kind != Unrelated {
          adj := adj[r.first := adj[r.first][r.second := r.kind]];
          adj := adj[r.second := adj[r.second][r.first := r.kind]];
        }
        k := k + 1;
      }
      BuildAdjPrefixIsBuildAdj(names, rels, k);
      assert rels[..k] == rels;
    }

    /**
     * Backtracking over `path`: with `answer` holding a choice for the first
     * |answer| lists, appends every completion of it, in product order, and
     * leaves `answer` as it found it.
     */
    method Bt(answers: MutableList<seq<string>>, answer: MutableList<string>, path: seq<seq<string>>)
      requires |answer.items| <= |path|
      modifies answers, answer
      ensures answer.items == old(answer.items)
      ensures answers.items == old(answers.items) + Prefixed(old(answer.items), CartesianProduct(path[|old(answer.items)|..]))
      decreases |path| - |answer.items|
    {
      var m := |answer.items|;
      if m == |path| {
        assert path[m..] == [];
        assert CartesianProduct(path[m..]) == [[]];
        assert Prefixed(answer.items, [[]])[0] == answer.items + [] == answer.items;
        assert Prefixed(answer.items, CartesianProduct(path[m..])) == [answer.items];
        answers.Append(answer.items);
        return;
      }
      ghost var pre := answer.items;
      ghost var tails := CartesianProduct(path[m + 1..]);
      assert path[m..][1..] == path[m + 1..];
      var choices := path[m];
      var q := 0;
      while q < |choices|
        invariant 0 <= q <= |choices|
        invariant answer.items == pre
        invariant answers.items == old(answers.items) + Prefixed(pre, Expand(choices[..q], tails))
      {
        ghost var done := answers.items;
        answer.Append(choices[q]);
        assert answer.items == pre + [choices[q]] && |answer.items| == m + 1;
        Bt(answers, answer, path);
        assert answers.items == done + Prefixed(pre + [choices[q]], tails);
        var _ := answer.Pop();
        assert (pre + [choices[q]])[..|pre|] == pre;
        PrefixedExpandSnoc(pre, choices, tails, q);
        q := q + 1;
      }
      assert choices[..q] == choices;
    }

    /** Every way of picking one entry from each list of `path`, first list varying slowest. */
    method GetAllPaths(path: seq<seq<string>>) returns (r: seq<seq<string>>)
      ensures r == CartesianProduct(path)
    {
      var answers := new MutableList<seq<string>>();
      var answer := new MutableList<string>();
      Bt(answers, answer, path);
      assert path[0..] == path;
      ghost var all := CartesianProduct(path);
      assert forall k :: 0 <= k < |all| ==> Prefixed([], all)[k] == all[k];
      r := answers.items;
    }

    /**
     * `room.get_adjacent_doors(self.doors)` for every room in turn.  The source
     * needs no distinct names; here they make the rooms distinct objects, so
     * updating one room leaves the others alone.  Valid() gives it to every caller.
     */
    static method RefreshAdjacentDoors(g: Oracle, rs: seq<Room>, doors: seq<Door>)
      requires DistinctRoomNames(rs)
      modifies rs`adjacentDoors
      ensures forall q :: 0 <= q < |rs| ==>
        rs[q].adjacentDoors == old(rs[q].adjacentDoors) + DoorsTouching(g, rs[q].points, doors)
      ensures forall q :: 0 <= q < |rs| ==> rs[q].neighbours == old(rs[q].neighbours)
    {
      var k := 0;
      while k < |rs|
        invariant 0 <= k <= |rs|
        invariant forall q :: 0 <= q < k ==>
          rs[q].adjacentDoors == old(rs[q].adjacentDoors) + DoorsTouching(g, rs[q].points, doors)
        invariant forall q :: k <= q < |rs| ==> rs[q].adjacentDoors == old(rs[q].adjacentDoors)
      {
        rs[k].GetAdjacentDoors(g, doors);
        k := k + 1;
      }
    }

    /** The inner loop of `get_neighbours` for room i: appends the linked rooms in order of j. */
    static method LinkRoom(g: Oracle, rs: seq<Room>, i: nat, room1: Room, ghost data: seq<RoomData>)
      requires i < |rs| && rs[i] == room1 && |data| == |rs|
      requires forall q :: 0 <= q < |rs| ==> data[q] == RoomData(rs[q].name, rs[q].points, rs[q].adjacentDoors)
      modifies room1`neighbours
      ensures room1.neighbours == old(room1.neighbours) + RoomsAt(rs, NeighbourIndices(g, data, i))
      ensures AllIn(old(room1.neighbours), rs) ==> AllIn(room1.neighbours, rs)
      ensures forall q :: 0 <= q < |rs| ==> rs[q].adjacentDoors == old(rs[q].adjacentDoors)
    {
      ghost var row := LinkRow(g, data, i);
      ghost var before := room1.neighbours;
      var j := 0;
      while j < |rs|
        invariant 0 <= j <= |rs|
        invariant room1.neighbours == Extend(before, rs, Where(row[..j]))
      {
        var room2 := rs[j];
        WhereSnoc(row, j);
        ExtendSnoc(before, rs, Where(row[..j]), j);
        assert row[j] == Linked(g, RoomData(room1.name, room1.points, room1.adjacentDoors), RoomData(room2.name, room2.points, room2.adjacentDoors));
        if WallAdjacent(g, room1.points, room2.points) {
          if room2.name != room1.name {
            room1.neighbours := room1.neighbours + [room2];
          }
        } else if room1.adjacentDoors * room2.adjacentDoors != {} {
          if room2.name != room1.name {
            room1.neighbours := room1.neighbours + [room2];
          }
        }
        j := j + 1;
      }
      assert row[..j] == row;
      ExtendIsAppend(before, rs, Where(row));
      if AllIn(before, rs) {
        AllInAppend(before, RoomsAt(rs, Where(row)), rs);
      }
    }

    /**
     * Refreshes every room's adjacent doors, then gives room i, in order of
     * j, every room j with another name that overlaps it structurally or
     * shares a door with it.
     */
    method GetNeighbours()
      requires Valid()
      modifies rooms`adjacentDoors, rooms`neighbours
      ensures Valid()
      ensures DoorsRefreshed(geom, rooms, doors)
      ensures NeighbourLists(rooms) == Grown(geom, rooms, old(NeighbourLists(rooms)), Snapshot())
    {
      var rs := rooms;
      LinkRooms(geom, rs, doors);
      assert rooms == rs;
    }

    /** Both phases of `get_neighbours` over the room list rs. */
    static method LinkRooms(g: Oracle, rs: seq<Room>, doors: seq<Door>)
      requires DistinctRoomNames(rs)
      modifies rs`adjacentDoors, rs`neighbours
      ensures DoorsRefreshed(g, rs, doors)
      ensures NeighbourLists(rs) == Grown(g, rs, old(NeighbourLists(rs)), Describe(rs, DoorSets(rs)))
      ensures old(NeighboursWithin(rs)) ==> NeighboursWithin(rs)
    {
      ghost var ds0, ls0 := DoorSets(rs), NeighbourLists(rs);
      RefreshAdjacentDoors(g, rs, doors);
      ghost var data := Describe(rs, DoorSets(rs));
      LinkAll(g, rs, data);
      RefreshedFrom(g, rs, ds0, DoorSets(rs), doors);
      GrownFrom(g, rs, ls0, NeighbourLists(rs), data);
      if old(NeighboursWithin(rs)) {
        GrownWithin(g, rs, ls0, data);
      }
    }

    /**
     * The nested loops of `get_neighbours`: room i's list grows by its linked
     * rooms, for every i.  Distinct names serve the frame reasoning only, as in
     * RefreshAdjacentDoors; Valid() gives them to every caller.
     */
    static method LinkAll(g: Oracle, rs: seq<Room>, ghost data: seq<RoomData>)
      requires DistinctRoomNames(rs) && |data| == |rs|
      requires forall q :: 0 <= q < |rs| ==> data[q] == RoomData(rs[q].name, rs[q].points, rs[q].adjacentDoors)
      modifies rs`neighbours
      ensures NeighboursGrown(g, rs, data)
    {
      var i := 0;
      while i < |rs|
        invariant 0 <= i <= |rs|
        invariant LinkedBefore(g, rs, data, i)
      {
        LinkRoom(g, rs, i, rs[i], data);
        i := i + 1;
      }
    }

    /** The first loop of `generate_room_relation`: refresh each room's doors and register it as a vertex. */
    method RegisterRooms(rs: seq<Room>)
      requires DistinctRoomNames(rs) && name2room == ByName(rs) && VerticesIndexed(vertices, name2room)
      modifies rs`adjacentDoors, this`vertices
      ensures forall q :: 0 <= q < |rs| ==>
        rs[q].adjacentDoors == old(rs[q].adjacentDoors) + DoorsTouching(geom, rs[q].points, doors)
      ensures vertices == name2room
    {
      ByNameIndexes(rs);
      var k := 0;
      while k < |rs|
        invariant 0 <= k <= |rs|
        invariant forall q :: 0 <= q < k ==>
          rs[q].adjacentDoors == old(rs[q].adjacentDoors) + DoorsTouching(geom, rs[q].points, doors)
        invariant forall q :: k <= q < |rs| ==> rs[q].adjacentDoors == old(rs[q].adjacentDoors)
        invariant forall n :: n in vertices ==> n in name2room && vertices[n] == name2room[n]
        invariant forall q :: 0 <= q < k ==> rs[q].name in vertices
      {
        rs[k].GetAdjacentDoors(geom, doors);
        var _ := AddVertex(rs[k]);
        k := k + 1;
      }
      VerticesComplete(vertices, rs);
    }

    /** The nested loops of `generate_room_relation`: one triple per pair i < j, in lexicographic order. */
    method RelateAll(rs: seq<Room>, ghost data: seq<RoomData>)
      requires |data| == |rs|
      requires forall q :: 0 <= q < |rs| ==> data[q] == RoomData(rs[q].name, rs[q].points, rs[q].adjacentDoors)
      modifies this`relation
      ensures relation == old(relation) + RelationTable(geom, data)
    {
      var i := 0;
      while i < |rs|
        invariant 0 <= i <= |rs|
        invariant PairsInRange(PairsBelow(i, |rs|), |rs|)
        invariant relation == old(relation) + RelationsFor(geom, data, PairsBelow(i, |rs|))
      {
        RelateRow(rs, data, i, old(relation));
        i := i + 1;
      }
    }

    /** The inner loop of `generate_room_relation` for room i: the triples of pairs (i, j), j > i, in order of j. */
    method RelateRow(rs: seq<Room>, ghost data: seq<RoomData>, i: nat, ghost base: seq<Relation>)
      requires i < |rs| && |data| == |rs|
      requires forall q :: 0 <= q < |rs| ==> data[q] == RoomData(rs[q].name, rs[q].points, rs[q].adjacentDoors)
      requires PairsInRange(PairsBelow(i, |rs|), |rs|)
      requires relation == base + RelationsFor(geom, data, PairsBelow(i, |rs|))
      modifies this`relation
      ensures PairsInRange(PairsBelow(i + 1, |rs|), |rs|)
      ensures relation == base + RelationsFor(geom, data, PairsBelow(i + 1, |rs|))
    {
      var n := |rs|;
      var j := i + 1;
      VisitedSteps(i, j, n);
      while j < n
        invariant i + 1 <= j <= n
        invariant PairsInRange(Visited(i, j, n), n)
        invariant relation == base + RelationsFor(geom, data, Visited(i, j, n))
      {
        var room1 := rs[i];
        var room2 := rs[j];
        VisitStep(geom, data, i, j);
        SnocAssoc(base, RelationsFor(geom, data, Visited(i, j, n)), RelationOf(geom, data, i, j));
        if WallAdjacent(geom, room1.points, room2.points) {
          relation := relation + [Relation(room1.name, Direct, room2.name)];
        } else if room1.adjacentDoors * room2.adjacentDoors != {} {
          relation := relation + [Relation(room1.name, ThroughDoor, room2.name)];
        } else {
          relation := relation + [Relation(room1.name, Unrelated, room2.name)];
        }
        j := j + 1;
      }
      VisitedSteps(i, j, n);
    }

    /** The first two loops of `generate_room_relation`: doors and vertices, then one triple per pair. */
    method RegisterAndRelate()
      requires Valid()
      modifies this`vertices, this`relation, rooms`adjacentDoors
      ensures Valid()
      ensures DoorsRefreshed(geom, rooms, doors)
      ensures vertices == name2room
      ensures relation == old(relation) + RelationTable(geom, Snapshot())
    {
      ghost var ds0 := DoorSets(rooms);
      var rs := rooms;
      RegisterRooms(rs);
      assert rooms == rs;
      RefreshedFrom(geom, rs, ds0, DoorSets(rs), doors);
      ghost var ds := DoorSets(rs);
      ghost var data := Describe(rs, ds);
      RelateAll(rs, data);
      assert rooms == rs && DoorSets(rs) == ds;
      TableMentionsRooms(geom, rs, ds);
      MentionsAppend(name2room.Keys, old(relation), RelationTable(geom, data));
    }

    /**
     * Refreshes the rooms' adjacent doors and registers every room as a
     * vertex; appends the triple of every pair i < j, in lexicographic order,
     * labelled by the relation rules; then fills the neighbour lists.
     */
    method GenerateRoomRelation()
      requires Valid()
      modifies this`vertices, this`relation, rooms`adjacentDoors, rooms`neighbours
      ensures Valid()
      ensures DoorsRefreshed(geom, rooms, doors)
      ensures NeighbourLists(rooms) == Grown(geom, rooms, old(NeighbourLists(rooms)), Snapshot())
      ensures vertices == name2room
      ensures relation == old(relation) + RelationTable(geom, Snapshot())
    {
      ghost var ds0, ls0 := DoorSets(rooms), NeighbourLists(rooms);
      RegisterAndRelate();
      assert NeighbourLists(rooms) == ls0;
      GetNeighbours();
      RefreshedTwice(geom, rooms, ds0, doors);
    }

    /**
     * The inner loop of `explore` for one frontier room u: every neighbour
     * without a level gets level i, records u as its parent under its own
     * name and joins nxt; the state follows Reach.Scan.
     */
    static method Visit(ghost rs: seq<Room>, u: Room, i: nat, levels: map<Room, nat>, nxt: seq<Room>, ghost par: map<Room, Room>)
      returns (levels': map<Room, nat>, nxt': seq<Room>, ghost par': map<Room, Room>)
      requires AllIn(u.neighbours, rs) && Reach.ParentsLevelled(Reach.Layer(levels, nxt, par))
      modifies rs`level, rs`parent
      ensures Reach.Layer(levels', nxt', par') == Reach.Scan(Reach.Layer(levels, nxt, par), u, u.neighbours, i)
      ensures Reach.ParentsLevelled(Reach.Layer(levels', nxt', par'))
      ensures Extends(levels, par, levels', par') && Stamped(rs, levels, levels', par')
    {
      var vs := u.neighbours;
      levels', nxt', par' := levels, nxt, par;
      ghost var st0 := Reach.Layer(levels, nxt, par);
      ghost var l0 := seq(|rs|, q requires 0 <= q < |rs| reads rs => rs[q].level);
      ghost var p0 := seq(|rs|, q requires 0 <= q < |rs| reads rs => rs[q].parent);
      var k := 0;
      while k < |vs|
        invariant 0 <= k <= |vs|
        invariant Reach.Layer(levels', nxt', par') == Reach.Scan(st0, u, vs[..k], i)
        invariant StampedSince(rs, l0, p0, levels, levels', par')
      {
        Reach.ScanSnoc(st0, u, vs, k, i);
        Reach.ScanKeeps(st0, u, vs[..k], i);
        levels', nxt', par' := VisitOneSince(rs, u, vs[k], i, levels', nxt', par', levels, l0, p0);
        k := k + 1;
      }
      assert vs[..k] == vs;
      Reach.ScanKeeps(st0, u, vs, i);
      forall q | 0 <= q < |rs|
        ensures StampedAt(rs[q], levels, levels', par', old(rs[q].level), rs[q].level, old(rs[q].parent), rs[q].parent)
      {
        assert l0[q] == old(rs[q].level) && p0[q] == old(rs[q].parent);
      }
    }

    /** VisitOne, with the stamping counted from the fields l0 and p0 recorded when levels was current. */
    static method VisitOneSince(ghost rs: seq<Room>, u: Room, v: Room, i: nat, levels: map<Room, nat>, nxt: seq<Room>, ghost par: map<Room, Room>,
                                ghost L0: map<Room, nat>, ghost l0: seq<Option<nat>>, ghost p0: seq<map<string, Room>>)
      returns (levels': map<Room, nat>, nxt': seq<Room>, ghost par': map<Room, Room>)
      requires v in rs && Reach.ParentsLevelled(Reach.Layer(levels, nxt, par))
      requires L0.Keys <= levels.Keys && StampedSince(rs, l0, p0, L0, levels, par)
      modifies rs`level, rs`parent
      ensures Reach.Layer(levels', nxt', par') ==
        if v in levels then Reach.Layer(levels, nxt, par) else Reach.Layer(levels[v := i], nxt + [v], par[v := u])
      ensures StampedSince(rs, l0, p0, L0, levels', par')
    {
      levels', nxt', par' := VisitOne(rs, u, v, i, levels, nxt, par);
      forall q | 0 <= q < |rs|
        ensures StampedAt(rs[q], L0, levels', par', l0[q], rs[q].level, p0[q], rs[q].parent)
      {
        StampedTrans(rs[q], L0, levels, par, levels', par',
                     l0[q], old(rs[q].level), rs[q].level, p0[q], old(rs[q].parent), rs[q].parent);
      }
    }

    /** The body of the inner loop of `explore`: neighbour v of u, if it has no level yet, gets level i and parent u. */
    static method VisitOne(ghost rs: seq<Room>, u: Room, v: Room, i: nat, levels: map<Room, nat>, nxt: seq<Room>, ghost par: map<Room, Room>)
      returns (levels': map<Room, nat>, nxt': seq<Room>, ghost par': map<Room, Room>)
      requires v in rs && Reach.ParentsLevelled(Reach.Layer(levels, nxt, par))
      modifies rs`level, rs`parent
      ensures Reach.Layer(levels', nxt', par') ==
        if v in levels then Reach.Layer(levels, nxt, par) else Reach.Layer(levels[v := i], nxt + [v], par[v := u])
      ensures Extends(levels, par, levels', par') && Stamped(rs, levels, levels', par')
    {
      levels', nxt', par' := levels, nxt, par;
      if v !in levels {
        levels', nxt', par' := levels[v := i], nxt + [v], par[v := u];
        v.level := Some(i);
        v.parent := v.parent[v.name := u];
      }
    }

    /**
     * One sweep of `explore`: Visit for every room of the frontier in order;
     * the state follows Reach.ScanAll over the rooms' graph.
     */
    static method ExpandLayer(ghost g: Reach.Graph<Room>, ghost rs: seq<Room>, frontier: seq<Room>, i: nat,
                              levels: map<Room, nat>, nxt: seq<Room>, ghost par: map<Room, Room>)
      returns (levels': map<Room, nat>, nxt': seq<Room>, ghost par': map<Room, Room>)
      requires forall r :: r in rs ==> r in g && g[r] == r.neighbours
      requires Closed(g, rs)
      requires AllIn(frontier, rs) && Reach.ParentsLevelled(Reach.Layer(levels, nxt, par))
      modifies rs`level, rs`parent
      ensures Reach.Layer(levels', nxt', par') == Reach.ScanAll(g, Reach.Layer(levels, nxt, par), frontier, i)
      ensures Reach.ParentsLevelled(Reach.Layer(levels', nxt', par'))
      ensures Extends(levels, par, levels', par') && Stamped(rs, levels, levels', par')
    {
      levels', nxt', par' := levels, nxt, par;
      ghost var st0 := Reach.Layer(levels, nxt, par);
      ghost var l0 := seq(|rs|, q requires 0 <= q < |rs| reads rs => rs[q].level);
      ghost var p0 := seq(|rs|, q requires 0 <= q < |rs| reads rs => rs[q].parent);
      var k := 0;
      while k < |frontier|
        invariant 0 <= k <= |frontier|
        invariant Reach.Layer(levels', nxt', par') == Reach.ScanAll(g, st0, frontier[..k], i)
        invariant StampedSince(rs, l0, p0, levels, levels', par')
      {
        var u := frontier[k];
        assert u in rs;
        assert Reach.Succ(g, u) == u.neighbours;
        SuccInRooms(g, rs, u);
        Reach.ScanAllSnoc(g, st0, frontier, k, i);
        Reach.ScanAllKeeps(g, st0, frontier[..k], i);
        levels', nxt', par' := VisitSince(rs, u, i, levels', nxt', par', levels, l0, p0);
        k := k + 1;
      }
      assert frontier[..k] == frontier;
      Reach.ScanAllKeeps(g, st0, frontier, i);
      forall q | 0 <= q < |rs|
        ensures StampedAt(rs[q], levels, levels', par', old(rs[q].level), rs[q].level, old(rs[q].parent), rs[q].parent)
      {
        assert l0[q] == old(rs[q].level) && p0[q] == old(rs[q].parent);
      }
    }

    /** Visit, with the stamping counted from the fields l0 and p0 recorded when levels was current. */
    static method VisitSince(ghost rs: seq<Room>, u: Room, i: nat, levels: map<Room, nat>, nxt: seq<Room>, ghost par: map<Room, Room>,
                             ghost L0: map<Room, nat>, ghost l0: seq<Option<nat>>, ghost p0: seq<map<string, Room>>)
      returns (levels': map<Room, nat>, nxt': seq<Room>, ghost par': map<Room, Room>)
      requires AllIn(u.neighbours, rs) && Reach.ParentsLevelled(Reach.Layer(levels, nxt, par))
      requires L0.Keys <= levels.Keys && StampedSince(rs, l0, p0, L0, levels, par)
      modifies rs`level, rs`parent
      ensures Reach.Layer(levels', nxt', par') == Reach.Scan(Reach.Layer(levels, nxt, par), u, u.neighbours, i)
      ensures StampedSince(rs, l0, p0, L0, levels', par')
    {
      levels', nxt', par' := Visit(rs, u, i, levels, nxt, par);
      forall q | 0 <= q < |rs|
        ensures StampedAt(rs[q], L0, levels', par', l0[q], rs[q].level, p0[q], rs[q].parent)
      {
        StampedTrans(rs[q], L0, levels, par, levels', par',
                     l0[q], old(rs[q].level), rs[q].level, p0[q], old(rs[q].parent), rs[q].parent);
      }
    }

    /** `out = {}; for l in levels: out[l.name] = levels[l]`. */
    static method NameLevels(levels: map<Room, nat>) returns (out: map<string, nat>)
      ensures NamesLevels(levels, out)
    {
      out := map[];
      ghost var who: map<string, Room> := map[];
      var rest := levels.Keys;
      while rest != {}
        invariant rest <= levels.Keys
        invariant forall l :: l in levels && l !in rest ==> l.name in out
        invariant forall n :: n in out ==> n in who && who[n] in levels && who[n].name == n && out[n] == levels[who[n]]
        decreases |rest|
      {
        var l :| l in rest;
        out := out[l.name := levels[l]];
        who := who[l.name := l];
        rest := rest - {l};
      }
      forall n | n in out ensures exists l :: l in levels && l.name == n && out[n] == levels[l] {
        assert who[n] in levels && who[n].name == n && out[n] == levels[who[n]];
      }
    }

    /**
     * Breadth-first search from room s over the neighbour lists, which it
     * leaves alone (only level and parent fields change); ExploreResult says
     * what the result and the new fields hold.
     */
    method Explore(s: Room) returns (out: map<string, nat>)
      requires Valid() && s in rooms
      modifies rooms`level, rooms`parent
      ensures ExploreResult(old(RoomGraph(rooms)), rooms, s, out)
    {
      var rs := rooms;
      RoomGraphClosed(rs);
      out := Bfs(RoomGraph(rs), rs, s);
    }

    /**
     * One pass of the while loop of explore: sweep k + 1 over the current
     * frontier. l0 and p0 are the level and parent fields before explore began.
     */
    static method Sweep(ghost g: Reach.Graph<Room>, ghost rs: seq<Room>, s: Room, ghost k: nat, i: nat,
                        levels: map<Room, nat>, frontier: seq<Room>, ghost par: map<Room, Room>,
                        ghost l0: map<Room, Option<nat>>, ghost p0: map<Room, map<string, Room>>)
      returns (levels': map<Room, nat>, frontier': seq<Room>, ghost par': map<Room, Room>)
      requires Wired(g, rs) && Closed(g, rs) && s in rs && i == k + 1
      requires Reach.Layer(levels, frontier, par) == Reach.Sweeps(g, s, k) && s in levels
      requires forall r :: r in rs && r in levels && r != s ==> r in par
      requires Marked(rs, l0, p0, levels, par, s)
      modifies rs`level, rs`parent
      ensures Reach.Layer(levels', frontier', par') == Reach.Sweeps(g, s, k + 1) && s in levels'
      ensures levels'.Keys != levels.Keys ==> |Reach.Elems(rs) - levels'.Keys| < |Reach.Elems(rs) - levels.Keys|
      ensures levels'.Keys == levels.Keys ==> frontier' == []
      ensures forall r :: r in rs && r in levels' && r != s ==> r in par'
      ensures Wired(g, rs) && Marked(rs, l0, p0, levels', par', s)
    {
      SweepStep(g, rs, s, k, levels, frontier, par);
      levels', frontier', par' := ExpandLayer(g, rs, frontier, i, levels, [], par);
      forall r | r in rs
        ensures r.level == Levelled(l0[r], levels', s, r) && r.parent == Parented(p0[r], levels', par', s, r)
      {
        LevelledStep(l0[r], old(r.level), r.level, levels, levels', s, r);
        ParentedStep(p0[r], old(r.parent), r.parent, levels, levels', par, par', s, r);
      }
    }

    /** The while loop of explore: sweeps until the frontier is empty, naming the levels after each sweep. */
    static method RunSweeps(ghost g: Reach.Graph<Room>, ghost rs: seq<Room>, s: Room)
      returns (levels: map<Room, nat>, out: map<string, nat>, ghost par: map<Room, Room>, ghost k: nat)
      requires Wired(g, rs) && Closed(g, rs) && s in rs
      modifies rs`level, rs`parent
      ensures Reach.Layer(levels, [], par) == Reach.Sweeps(g, s, k)
      ensures NamesLevels(levels, out) && s in levels
      ensures forall r :: r in rs && r in levels && r != s ==> r in par
      ensures forall r :: r in rs ==> r.level == Levelled(old(r.level), levels, s, r)
      ensures forall r :: r in rs ==> r.parent == Parented(old(r.parent), levels, par, s, r)
    {
      ghost var l0 := map r | r in Reach.Elems(rs) :: r.level;
      ghost var p0 := map r | r in Reach.Elems(rs) :: r.parent;
      var frontier: seq<Room>, i: nat;
      levels, frontier, i := map[s := 0], [s], 1;
      par, k := map[], 0;
      out := map[];
      forall r | r in rs ensures r in l0 && r in p0 && l0[r] == r.level && p0[r] == r.parent {
        assert r in Reach.Elems(rs);
      }
      MarkedStart(rs, l0, p0, s);
      while frontier != []
        invariant i == k + 1 && Reach.Layer(levels, frontier, par) == Reach.Sweeps(g, s, k) && s in levels
        invariant k == 0 ==> frontier == [s]
        invariant k > 0 ==> NamesLevels(levels, out)
        invariant Wired(g, rs)
        invariant forall r :: r in rs && r in levels && r != s ==> r in par
        invariant Marked(rs, l0, p0, levels, par, s)
        decreases |Reach.Elems(rs) - levels.Keys|, |frontier|
      {
        var levels', nxt, par' := Sweep(g, rs, s, k, i, levels, frontier, par, l0, p0);
        frontier, levels, par, i, k := nxt, levels', par', i + 1, k + 1;
        out := NameLevels(levels);
      }
      forall r | r in rs ensures r.level == Levelled(old(r.level), levels, s, r) && r.parent == Parented(old(r.parent), levels, par, s, r) {
        assert r in Reach.Elems(rs);
      }
    }

    /** Explore over the rooms rs, whose names are distinct and whose neighbour lists stay inside rs. */
    static method Bfs(ghost g: Reach.Graph<Room>, rs: seq<Room>, s: Room) returns (out: map<string, nat>)
      requires forall r :: r in rs ==> r in g && g[r] == r.neighbours
      requires Closed(g, rs) && DistinctRoomNames(rs) && s in rs
      modifies rs`level, rs`parent
      ensures ExploreResult(g, rs, s, out)
    {
      var levels;
      ghost var par, k;
      levels, out, par, k := RunSweeps(g, rs, s);
      ExploreDone(g, rs, s, k, levels, par, out);
    }
  }
}
