# CubiGraph5K floor-plan graph, modelled in Dafny

This project models the graph logic of `src/plan.py`. It covers:

- how rooms and doors are named while a plan is parsed;
- how `generate_room_relation` labels every pair of rooms;
- the adjacency views `get_adjacency_list`, `get_neighbours` and `get_adjacent_doors`;
- the vertex map of `add_vertex`;
- the breadth-first search `explore`;
- the backtracking enumeration `bt` / `get_all_paths`.

The SVG parsing and the shapely geometry are outside the model. Rooms arrive as raw records: the second CSS class plus an outline. The two area measurements come from an injected `Geometry.Oracle`. The model keeps the thresholds the source compares them against: 5.0 for two buffered rooms and 10.0 for a room and a buffered door.

The modules follow the structure of the program:

- `Naming`: the `"<Category>_<k>"` and `"Door_<i+1>"` names. Includes a decimal spelling with a proved round trip, and the fold over the parse order that makes room names distinct.
- `PairOrder`: the order `for i … for j in range(i+1, n)` in which room pairs are visited.
- `RoomRelation`: the label rule (1 beats 2 beats 0), the relation table and the neighbour rule.
- `Adjacency`: the dictionary built by `get_adjacency_list`, tied to a reference reading `Lookup` of the triples.
- `Reach`: breadth-first layers over successor lists. Distance is defined as the length of a shortest walk, and the sweeps of `explore` are a function `Sweeps` whose every state is proved to be the correct BFS state.
- `Product`: the Cartesian product that `bt` enumerates, its size, its lexicographic order and its completeness.
- `FloorPlan`:
  - `Room`, `Plan` and the list and counter objects they update in place, as classes with `modifies` frames;
  - `Door` as a value.

  Each method is proved against the functions of the modules above.

`explore` mutates `level` and `parent` on `Room` objects, so it is a method over the heap. Its local `levels` dictionary and `nxt` list are values. Each pass of its `while` loop is proved equal to one step of `Reach.Sweeps`.

Some facts about the code that shape the model:

- `explore` records one parent per room and does not enumerate tied shortest paths.
- `src/plan.py` has no depth, eccentricity or adjacency-matrix query.
- `src/plan.py` has no polygon check of its own; outlines go straight to shapely's `Polygon`.
- An unknown room label raises `KeyError`. The model states this as a precondition.

## Model

| member | source | states |
|---|---|---|
| Naming.NatToStringRoundTrip | src/plan.py:126 | the decimal spelling of a sequence number reads back as that number |
| Naming.RoomNameInjective | src/plan.py:126 | two room names are equal iff their categories and sequence numbers are equal |
| Naming.DoorNameInjective | src/plan.py:157 | `Door_<i+1>` equals `Door_<j+1>` iff i = j |
| Naming.NatToString | src/plan.py:126 | the decimal spelling used by `format`: at least one digit, and a leading `0` only for the number 0 |
| Naming.RoomName | src/plan.py:126 | `'{}_{}'.format(type, n)`: the name starts with the category followed by `_` |
| Naming.DoorName | src/plan.py:157 | `'Door_{}'.format(idx + 1)`: the name starts with `Door_` |
| Naming.Count | src/plan.py:127 | the value of `room_type_count[c]` once the categories of s have been counted; never more than the number of rooms counted |
| Naming.SeqNo | src/plan.py:126-127 | the number the k-th parsed room receives: one more than the earlier rooms of its category, so between 1 and k + 1 |
| Naming.NameAt | src/plan.py:125-127 | the name the k-th parsed room receives; it starts with that room's category |
| Naming.CountIsMultiplicity | src/plan.py:127 | the per-category counter after counting a category list equals that category's multiplicity in the list |
| Naming.SeqNoIncreasing | src/plan.py:126-127 | a later room of the same category gets a strictly larger sequence number |
| Naming.NamesDistinct | src/plan.py:125-127 | rooms at different parse positions get different names |
| Naming.LastSeqNoIsCount | src/plan.py:126-127 | the last room of a category carries the number of rooms of that category |
| PairOrder.AllPairs | src/plan.py:205-206 | the pairs (i, j) the nested `for i` / `for j in range(i+1, n)` loops visit, in visiting order; AllPairsCharacterized states what it holds |
| PairOrder.VisitedSteps | src/plan.py:205-206 | row i of the nested loops starts where the earlier rows end, visits (i, j) in order of j, and ends where row i + 1 starts |
| PairOrder.PairCount | src/plan.py:205-206 | n rooms give n(n-1)/2 visited pairs |
| PairOrder.PairAt | src/plan.py:205-206 | pair (i, j) with i < j < n is visited at position PairIndex(i, j, n) |
| PairOrder.PairsBelowSorted | src/plan.py:205-206 | the visiting order is strictly increasing lexicographically |
| PairOrder.AllPairsCharacterized | src/plan.py:205-206 | the visited pairs are exactly the pairs i < j < n, each once, in lexicographic order |
| PairOrder.PairPositionUnique | src/plan.py:205-206 | two positions hold the same pair iff they are equal |
| Geometry.WallAdjacent | src/plan.py:209 | the buffered outlines of two rooms overlap by more than 5.0 |
| Geometry.DoorOpensInto | src/plan.py:149 | the buffered door outline overlaps the room by more than 10.0 |
| RoomRelation.Classify | src/plan.py:209-215 | label 1 iff the buffered overlap exceeds 5.0; label 2 iff it does not and the door sets intersect; label 0 iff neither holds |
| RoomRelation.RelationTable | src/plan.py:205-215 | the relation list the nested loops build: one triple (room i, label, room j) per visited pair, in visiting order; every label is 0, 1 or 2 |
| RoomRelation.RelationOf | src/plan.py:211-215 | the triple appended for pair (i, j): room i's name, the classified label, room j's name |
| RoomRelation.RelationsForSnoc | src/plan.py:211-215 | visiting one more pair appends exactly its triple |
| RoomRelation.VisitStep | src/plan.py:205-215 | visiting (i, j) after the pairs before it appends the triple for (i, j) |
| RoomRelation.RelationCount | src/plan.py:205-215 | the relation table has n(n-1)/2 triples, none when n <= 1 |
| RoomRelation.OneRelationPerPair | src/plan.py:205-215 | the triple at PairIndex(i, j) relates rooms i and j with the classified label; with distinct names it is the only triple naming them, in either order |
| RoomRelation.RelationOrder | src/plan.py:205-215 | every triple relates an earlier room to a later one, and the triples follow lexicographic pair order |
| RoomRelation.Linked | src/plan.py:234-239 | the `get_neighbours` test: the names differ and the rooms overlap structurally or share a door, which is the same as a different name and a non-zero relation label |
| RoomRelation.NeighbourIndices | src/plan.py:232-239 | the indices j of the rooms appended to room i's list, in the order of the inner loop; each is a room index |
| RoomRelation.WhereMembers | src/plan.py:232-239 | the selected indices are exactly the positions where the test holds, in increasing order |
| RoomRelation.NeighbourMembers | src/plan.py:230-239 | room j is appended to room i iff the names differ and the rooms overlap structurally or share a door; the list is increasing in j and never holds i |
| RoomRelation.NeighboursMatchRelation | src/plan.py:209-215 | for i < j, j is a neighbour of i iff the triple for (i, j) has a non-zero label; i is a neighbour of j likewise when the overlap measurement is symmetric |
| Adjacency.EmptyAdj | src/plan.py:219 | the starting dictionary: one empty entry per room name |
| Adjacency.AddRelation | src/plan.py:220-223 | one loop iteration: a non-zero triple writes its label under both names; a zero triple changes nothing |
| Adjacency.BuildAdj | src/plan.py:219 | the dictionary has exactly the room names as keys |
| Adjacency.BuildAdjSnoc | src/plan.py:220-223 | one more triple is one more step of the fold |
| Adjacency.BuildAdjPrefix | src/plan.py:219-223 | the dictionary after the first k iterations of the loop over the relation; it keeps exactly the room names as keys |
| Adjacency.BuildAdjPrefixIsBuildAdj | src/plan.py:219-223 | after k iterations the loop holds the fold over the first k triples |
| Adjacency.AddRelationAt | src/plan.py:221-223 | one triple writes its label under both names iff it is non-zero; no other entry changes |
| Adjacency.BuildMatchesLookup | src/plan.py:218-224 | b is listed under a iff some non-zero triple joins a and b, and the entry is the label of the last such triple |
| Adjacency.LookupSymmetric | src/plan.py:222-223 | the reading is the same for (a, b) and (b, a) |
| Adjacency.LookupHasWitness | src/plan.py:220-223 | a label that is read off comes from a triple that joins the two names |
| Adjacency.AdjacencyShape | src/plan.py:218-224 | a key for every room, even isolated ones; entries name rooms, are symmetric with equal labels, and are never 0 |
| Adjacency.TableNamesRooms | src/plan.py:205-215 | the relation table of distinctly named rooms names only those rooms and never relates a room to itself |
| Adjacency.AdjacencyOfTable | src/plan.py:205-224 | for i < j, rooms i and j list each other iff their label is non-zero, with that label; no room lists itself |
| Reach.WalkWithin | src/plan.py:311-317 | the end of a walk with m hops from s lies within m hops |
| Reach.WithinWalk | src/plan.py:311-317 | every node within k hops ends a walk from s with at most k hops |
| Reach.DistanceIsShortestWalk | src/plan.py:304-323 | a node at distance d has a walk of d hops from s and none shorter |
| Reach.DistanceUnique | src/plan.py:304-323 | a node has at most one distance |
| Reach.NextLayer | src/plan.py:311-318 | the next layer comes from the current frontier alone |
| Reach.Scan | src/plan.py:312-317 | the `for v in u.neighbours` loop as a fold: each successor without a level gets level i, joins nxt and records u; nxt only grows at its end, by at most one node per successor |
| Reach.ScanAll | src/plan.py:311-317 | the `for u in frontier` loop: one Scan per frontier node, in order; nxt only grows at its end |
| Reach.Sweeps | src/plan.py:305-319 | the BFS state after k passes of the `while` loop, starting from `levels = {s: 0}` and `frontier = [s]`; SweepsState and SweepsDone state what it holds |
| Reach.EmptyFrontierStable | src/plan.py:308 | once a layer is empty no further node is ever reached |
| Reach.ScanKeeps | src/plan.py:312-317 | scanning a neighbour list keeps every level and parent and keeps parents levelled |
| Reach.ScanAllKeys | src/plan.py:311-317 | a sweep levels exactly the successors of the frontier that had no level |
| Reach.ScanAllGrows | src/plan.py:311-317 | every node a sweep adds gets level i, joins nxt and is found from a frontier node that lists it |
| Reach.BfsInit | src/plan.py:305-307 | `levels = {s: 0}`, `i = 1`, `frontier = [s]` is the BFS state before the first sweep |
| Reach.BfsStep | src/plan.py:309-319 | one sweep turns the BFS state before sweep i into the state before sweep i + 1: exact distances, the next layer as frontier, shortest-path parents |
| Reach.SweepsState | src/plan.py:308-319 | after k sweeps the state is the BFS state before sweep k + 1 |
| Reach.BfsDone | src/plan.py:308 | when the frontier is empty the levelled nodes are exactly the reachable ones |
| Reach.SweepsDone | src/plan.py:304-323 | on loop exit the levels are exactly the reachable nodes, each at its distance, with shortest-path parents |
| Reach.SweepFacts | src/plan.py:308-319 | inside a successor-closed set the sweeps stay in it, and each sweep levels a new node or empties the frontier, so the loop ends |
| Product.ExpandLength | src/plan.py:329-331 | expanding f first elements over t tails gives f * t sequences |
| Product.ExpandAt | src/plan.py:329-331 | position a * t + b holds firsts[a] in front of tails[b] |
| Product.PrefixedExpandSnoc | src/plan.py:329-332 | one more iteration of the `for p` loop appends the completions of answer + [p] |
| Product.CartesianProduct | src/plan.py:325-337 | the answers of `get_all_paths`: each entry of the first list in order, in front of every answer for the remaining lists; a single empty answer when there are no lists |
| Product.ProductSize | src/plan.py:325-337 | the number of answers is the product of the list lengths |
| Product.ProductAt | src/plan.py:325-337 | the choice vector ix sits at its mixed-radix rank, so the order is lexicographic in the choices |
| Product.RankRespectsLex | src/plan.py:325-337 | a lexicographically earlier choice has a smaller position |
| Product.ProductElements | src/plan.py:325-337 | every answer has one entry per list, drawn from that list |
| Product.ProductComplete | src/plan.py:325-337 | every sequence drawing one entry from each list is an answer |
| FloorPlan.NamesOf | src/plan.py:192 | `roomNames`: the names of the rooms, one per room, in order |
| FloorPlan.Categories | src/plan.py:125 | the category of each raw room, in parse order |
| FloorPlan.DoorsOf | src/plan.py:194-198 | the door list of the parse loop: one door per threshold, and door i is threshold i named `Door_<i+1>` |
| FloorPlan.ByName | src/plan.py:191 | `name2room` after the parse loop: each name maps to the last room that carried it |
| FloorPlan.ByNameIndexes | src/plan.py:191 | with distinct names, `name2room` has exactly the room names as keys and maps each to its room |
| FloorPlan.ParsedNamesDistinct | src/plan.py:188-192 | the rooms the parse loop builds have pairwise distinct names |
| FloorPlan.Tally | src/plan.py:126-127 | the `defaultdict(int)` reading of the counter: a category never counted reads 0 |
| FloorPlan.CountsAreMultiplicities | src/plan.py:127 | the counter holds, for every category, the number of parsed rooms of that category |
| FloorPlan.DoorsTouching | src/plan.py:148-150 | the names of the doors whose buffered outline overlaps the room by more than 10.0 |
| FloorPlan.Refreshed | src/plan.py:227-228 | every room's door set after one pass of `get_adjacent_doors` over all rooms: grown by the doors that open into it, one entry per room |
| FloorPlan.RefreshedTwice | src/plan.py:201-228 | the doors are collected at lines 201-202 and again at lines 227-228 in `get_neighbours`; the second collection adds nothing |
| FloorPlan.TableMentionsRooms | src/plan.py:205-215 | the relation table names only keys of `name2room` |
| FloorPlan.Grown | src/plan.py:230-239 | every room's neighbour list after the `get_neighbours` loops: grown by its linked rooms in order of j, one list per room |
| FloorPlan.GrownWithin | src/plan.py:236-239 | neighbour lists grown by rooms of the plan stay within the plan |
| FloorPlan.RoomGraph | src/plan.py:312 | the graph `explore` walks: each room of the plan has its neighbour list as successors, and there are no other nodes |
| FloorPlan.RoomGraphClosed | src/plan.py:312 | when neighbour lists hold plan rooms, the successors of a plan room are plan rooms |
| FloorPlan.NamedLevels | src/plan.py:320-322 | with distinct names, `out` holds a room's name iff the room has a level, and then its level |
| FloorPlan.ExploreDone | src/plan.py:304-323 | when the frontier is empty the named levels are exactly the reachable rooms at their distances, with parents one level lower that list them |
| FloorPlan.TypeCounter.constructor | src/plan.py:181 | the counter starts empty |
| FloorPlan.Plan.Valid | src/plan.py:176-198 | the plan invariant: `roomNames` and `name2room` list and index the rooms, whose names are distinct; doors are numbered in order and indexed by name; the relation names known rooms; `vertices` is part of `name2room`; neighbour lists hold plan rooms |
| FloorPlan.Room.constructor | src/plan.py:123-132 | the room is named after its category and the counter plus one; the counter for that category goes up by one; the door set, neighbour list, level and parent start empty |
| FloorPlan.Room.GetAdjacentDoors | src/plan.py:146-150 | the door set grows by exactly the names of the doors whose overlap with the room exceeds 10.0 |
| FloorPlan.MutableList.Append | src/plan.py:330 | appends one item at the end |
| FloorPlan.MutableList.Pop | src/plan.py:332 | removes and returns the last item |
| FloorPlan.Plan.constructor | src/plan.py:170-198 | rooms in parse order with their names, outlines and categories; the counter holds each category's multiplicity; door i is `Door_<i+1>`; indexes by name; empty relation and vertex map; every room is a newly allocated object |
| FloorPlan.Plan.ParsedValid | src/plan.py:176-198 | freshly parsed fields with no relation and no vertex satisfy the plan invariant |
| FloorPlan.Plan.ParsePlan | src/plan.py:188-198 | both parse loops: the room index and distinct names, the counts, and the numbered doors; the counter and every room are newly allocated |
| FloorPlan.Plan.NewRoom | src/plan.py:189 | the k-th room gets NameAt(categories, k) and the counter then counts the first k + 1 categories |
| FloorPlan.Plan.ParseRooms | src/plan.py:188-192 | the rooms in parse order, their name list and their name index; the counter counts the categories; every room is newly allocated |
| FloorPlan.Plan.ParseDoors | src/plan.py:194-198 | door i is `Door_<i+1>`, the door count is the number of doors, and the name index maps each door's name to it |
| FloorPlan.Plan.AddVertex | src/plan.py:241-246 | returns true iff the name was absent, and then adds exactly that vertex; otherwise nothing changes |
| FloorPlan.Plan.GetAdjacencyList | src/plan.py:218-224 | the result is BuildAdj of the room names and the relation list |
| FloorPlan.Plan.Bt | src/plan.py:325-332 | appends every completion of `answer`, in product order, and leaves `answer` as it found it |
| FloorPlan.Plan.GetAllPaths | src/plan.py:334-337 | returns exactly the Cartesian product of `path`, first list varying slowest |
| FloorPlan.Plan.RefreshAdjacentDoors | src/plan.py:227-228 | every room's door set grows by the doors that open into it; neighbour lists are unchanged |
| FloorPlan.Plan.LinkRoom | src/plan.py:231-239 | room i's list grows by the linked rooms, in order of j |
| FloorPlan.Plan.LinkAll | src/plan.py:230-239 | every room's list grows by its linked rooms |
| FloorPlan.Plan.LinkRooms | src/plan.py:226-239 | both phases of `get_neighbours`: door sets refreshed, then neighbour lists grown by the rule on the refreshed doors |
| FloorPlan.Plan.GetNeighbours | src/plan.py:226-239 | the same on the plan's rooms, keeping the plan invariant |
| FloorPlan.Plan.RegisterRooms | src/plan.py:201-203 | every room's door set is refreshed and the vertex map becomes `name2room` |
| FloorPlan.Plan.RelateRow | src/plan.py:206-215 | the inner loop appends the triples of the pairs (i, j), j > i, in order of j |
| FloorPlan.Plan.RelateAll | src/plan.py:205-215 | the nested loops append exactly the relation table of the rooms |
| FloorPlan.Plan.RegisterAndRelate | src/plan.py:201-215 | door sets refreshed, vertices registered, then the relation table appended |
| FloorPlan.Plan.GenerateRoomRelation | src/plan.py:200-216 | door sets refreshed once in effect, vertex map equal to `name2room`, relation table appended, neighbour lists grown; the plan invariant is kept |
| FloorPlan.Plan.VisitOne | src/plan.py:313-317 | a neighbour without a level gets level i, joins nxt and records u as its parent under its own name; otherwise nothing changes |
| FloorPlan.Plan.Visit | src/plan.py:312-317 | the inner loop follows Reach.Scan over u's neighbours, and only newly levelled rooms have their fields written |
| FloorPlan.Plan.VisitOneSince | src/plan.py:313-317 | VisitOne, with the record of written fields counted from an earlier state |
| FloorPlan.Plan.VisitSince | src/plan.py:312-317 | Visit, with the record of written fields counted from an earlier state |
| FloorPlan.Plan.ExpandLayer | src/plan.py:311-317 | one sweep follows Reach.ScanAll over the frontier |
| FloorPlan.Plan.NameLevels | src/plan.py:320-322 | `out` holds the name of every levelled room and only such names, each with its room's level |
| FloorPlan.Plan.Sweep | src/plan.py:309-322 | one pass of the while loop is one step of Reach.Sweeps, and it makes progress or empties the frontier |
| FloorPlan.Plan.RunSweeps | src/plan.py:305-322 | the loop ends in a state of Reach.Sweeps with an empty frontier; the fields of the reached rooms hold their levels and parents |
| FloorPlan.Plan.Bfs | src/plan.py:304-323 | explore over distinctly named rooms whose lists stay inside them satisfies ExploreResult |
| FloorPlan.Plan.Explore | src/plan.py:304-323 | `out` names s at 0 and names exactly the reachable rooms, at their distance; each reached room except s gets that level and, under its own name only, a parent one level lower that lists it; the other rooms are untouched |

## Left out

- SVG and file input: `get_points_from_svg_group`, BeautifulSoup, and the `path`, `svg` and `svg_dimension` fields (src/plan.py:94-96, 170-175, 183). Rooms are given as raw records and doors as outlines, in document order.
- shapely: `to_shapely_polygon` (src/plan.py:143-144, 164-165) is not modelled, since outlines stay point lists. Both area measurements are fields of `Geometry.Oracle`, and only their comparison with 5.0 and 10.0 is modelled. Floating-point behaviour is not modelled. Symmetry of the room/room overlap is an explicit hypothesis where it is used.
- `mean`, `_get_center_point` and `center_point`: float arithmetic used only for drawing.
- Drawing and printing are left out: `Tag`, `to_svg_polygon`, `generate_relation_svg`, `print_graph` and `main`.
- Geometry.Oracle is total: the model gives an area for every outline. It does not capture the `ValueError` shapely's `Polygon` raises for an outline with fewer than three points, which `get_adjacent_doors` (src/plan.py:147-149) and the pair tests (src/plan.py:209, 234) would propagate.
- `self.adjList` is computed before any room is parsed, so it is always the empty dictionary. The field is not modelled; `get_adjacency_list` is.
- `room_name_map`, `room_colors`, `room_type`: the category table is a parameter. A class label missing from it raises `KeyError` in the source; in the model that is a precondition of `FloorPlan.Plan.constructor` and `FloorPlan.Room.constructor`.
- FloorPlan.Plan.GetAdjacencyList: a triple naming an unknown room raises `KeyError` in the source; here it is a precondition. The plan invariant guarantees it for the plan's own relation list.
- FloorPlan.Plan.Bt: a call with `answer` longer than `path` raises `IndexError` in the source; here it is a precondition.
- FloorPlan.MutableList.Pop: popping an empty list raises `IndexError`; here it is a precondition, which `bt` always meets.
- `shortest_path` is not modelled. It depends on `level` and `parent` values left on rooms by earlier `explore` calls, and its candidate test does not enumerate tied shortest paths.
- The `isinstance(room, Room)` test of `add_vertex` always holds in a typed model.
- A room's `level` starts as `{}` in the source; the model writes `None` for it and `Some(i)` once a level is set.
- FloorPlan.Plan.Explore: the start room must be one of the plan's rooms. The source accepts any room object, but its neighbour lists only ever hold plan rooms.
- FloorPlan.Plan.Explore: the order in which Python iterates `levels` to build `out` is not modelled. With distinct room names every order gives the same dictionary.
- Python's unbounded integers are modelled as `nat`; there is no wrap-around to model.
