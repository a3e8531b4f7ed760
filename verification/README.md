# Graph symmetry: refinement, orbits, groups and graph text

The repository computes the orbits of the automorphism group of a graph. This project models the parts of it
that carry a mathematical promise, and proves those promises for all inputs: colour refinement in three
implementations, edge connectivity by augmenting paths, the exact chromatic number by branch and bound, the
graph6, digraph6, sparse6 and incremental sparse6 formats, the group machinery (orbits of vertices, arcs and
edges, coset representatives, listing a group, pruning), the canonisation of coloured rooted trees, and the
one-pass test for strong connectivity.

Code that changes arrays, tables or globals in place is modelled as methods and classes that do the same, and each
is proved against a specification that does not mention it. Main results by area:

* **1-WL refinement** (`Wl1`, `Wl1Spec`, `Wl1Theory`, `Wl1Order`, `Wl1Relabel`, `Wl1Cost`, `Wl1Moves`). The
  work-queue loop ends with the coarsest equitable partition refining the given colours, ids dense and the first of
  them in the order of the given colours; relabelling the graph relabels the result with identical ids, so orbit-mates
  share a colour; every vertex is in at most log2(n) + 1 popped classes.
* **Refinement of partition nests** (`Nests`, `NestRefinement`, `NestCost`, `PassSteps`, `BucketSort`, `Hints`,
  `CutRuns`, `RefineInPlace`, `RefinementLimits`, `OrbitCells`; `Distances`, `QueueOrder`, `QueuePasses`,
  `SparseRuns`, `SparseCells`, `SparseRefine`; `StepRelabel`, `CutRelabel`, `SparseRelabel`; `Breakout`,
  `SameRefinement`, `Compositions`). `refine1` and `refine_sg` work in place over `lab` and `ptn` and return the run
  they made, every step of it exact: which cell is taken, how each class is cut and in which order its pieces stand,
  which pieces become active. Over every such run each vertex is in at most log2(n) + 1 splitting cells, and both
  refinements commute with relabelling. `refine_sg` ends with the coarsest equitable partition on every digraph; for
  `refine1` the digraphs on which it is equitable from every correct start are determined exactly, tournaments among
  them. On undirected graphs both reach the same cells.
* **Edge connectivity** (`EdgeFlow`, `EdgeConnectivity`, `EdgePaths`). Max-flow/min-cut for the reversed-bitset flow,
  Menger's theorem for it, and the global minimum cut from n cyclically consecutive pairs.
* **Chromatic number** (`Colouring`, `Chromatic`). The interval contract, with completeness of the colour-symmetric
  search and exact restoration of every table on backtracking.
* **Graph text** (`Bits`, `GraphText`, `Graph6`, `SparseGraph6`, `Sparse6Spec`, `Sparse6Graphs`, `Sparse6`). What
  every text is in plain numbers (size, width, position of each bit, padding), round trips for every format, exact
  lengths, and the rule for the last byte of sparse6.
* **Groups and orbits** (`Orbits`, `GroupOrbits`, `Cycles`, `ArcOrbits`, `Pruning`, `GroupElements`, `GroupListing`,
  `Groups`, `Automorphisms`, `CheapAutom`, `SmallCells`).
* **Coloured trees** (`AhuTrees`, `AhuSpec`, `AhuRegistry`) and **strong connectivity** (`StronglyConnected`).

`Sums`, `Graphs`, `Rows` and `Sorting` are shared. A `set` of the C code is a `set<nat>` and POPCOUNT its
cardinality; `nextelement` is `Rows.NextElement`; text is a sequence of byte values.

Where the code and its own documentation differ, the code is followed:

* `run1WL` is described as O(m log n) (`src/main/cpp/paige_tarjan_wl1.cpp:9-11`). That bound is proved for the arcs
  scanned and for the vertices that change class. Each of these is looked up by a linear `std::find` in its old class
  (line 115); the steps of all these searches together are at most n times that bound (`Wl1.Compute1WLColorsFrom`).
* `run1WL` counts arcs out of the splitter, that is, in-arcs of the vertices it splits. Everything is proved for any
  digraph in compressed rows, parallel arcs included; for a symmetric graph these are the neighbour counts
  (`Wl1Theory.SameColourSameNeighbours`). The growth of the tables when colours run past them (lines 102-106) never
  happens, because there are at most n colours.
* The comment of `longprune` intersects with each mi whose fi is a subset of fix. The code intersects when fix is a
  subset of fi (`NOTSUBSET(fix, fi)`, `src/main/cpp/nauty/nauty.h:734`), and that is what is proved sound. The comment's
  way round is not: `Pruning.OtherWayUnsound` is an automorphism for which it removes the least vertex of an orbit.
* `isautom` says that it decides `g^perm = g`. With digraph FALSE it never looks at loops: `Automorphisms.LoopsUnseen`
  is a graph with one loop where it accepts a map that is no automorphism, and `Automorphisms.IsAutom` states what it
  decides: adjacency of different vertices. The answer is right exactly when perm, if it keeps that adjacency, keeps
  the loops too; on loop-free graphs it always does (`Automorphisms.LoopFreeKeepsLoops`).
* `refine1` counts arcs out of the vertices of a cell into a splitting cell of several vertices, but arcs into them
  from a single splitting vertex. The comment of `refine`, which it takes over, promises an equitable result if the
  active set is correct (`src/main/cpp/nauty/naugraph.c:167-168`): here, if agreeing on the arcs into active cells is
  agreeing on the arcs into all cells. On digraphs this holds from every correct active set exactly if the digraph is
  telling (`CutRuns.Telling`): among the other vertices, those that a vertex points to alike point to it alike.
  `RefineInPlace.Refine1` promises it for telling digraphs, and for any other `RefinementLimits.UntoldMissed` gives a
  correct start from which no result is equitable; `RefinementLimits.EquitableExactly` says both at once. With all
  cells active it can fail too (`RefinementLimits.DigraphMissed`), but need not: `RefinementLimits.FourCycle` is not
  telling and does well from its one cell. If each direction tells the other, as in undirected graphs and tournaments,
  the result is the coarsest equitable partition. On every digraph no refinement that is equitable both ways is cut,
  hence no orbit of automorphisms (`OrbitCells.AutomorphismsSurvive`). `refine_sg` counts one way only, and its result
  is the coarsest equitable partition on every digraph.
* The tree encoder reserves only the colour "*" (`src/main/cpp/colored_ahu.cpp:10-11`). Colours containing
  parentheses collide as well; `AhuTrees.Collisions` gives both collisions. Without parentheses,
  `AhuTrees.SameStringIff` says exactly when two strings are equal.
* `stringtograph` adds the edges of a sparse6 text, `stringtograph_inc` flips them. They agree
  exactly when every listed edge is listed an odd number of times (`Sparse6Graphs.FlipIsAdd`), as in everything that
  `ntos6` writes. `Sparse6.ReadersDisagree` is a text of two vertices on which they differ.
* The distance split at the start of `refine_sg` uses information that is not in the cells' counts. It still keeps
  the result coarsest, because distances to a single vertex are constant on the cells of every equitable refinement
  (`Distances.SameDistance`). With all cells active it is never taken (`SparseRefine.NoFirstSplit`).

## Model

| member | source | states |
|---|---|---|
| Wl1Theory.ColoursCoarsestEquitable | src/main/cpp/paige_tarjan_wl1.cpp:28-129 | For every digraph and every initial colouring the result is equitable, refines the initial colours, is refined by every equitable refinement of them, and its ids are exactly 0..k-1. |
| Wl1Theory.RunCoarsest | src/main/cpp/paige_tarjan_wl1.cpp:58-125 | From any state that satisfies the queue invariant the loop ends in an equitable partition that refines the state's and is coarser than every equitable refinement of it. |
| Refinement.SplitKeepsPassInv | src/main/cpp/paige_tarjan_wl1.cpp:84-121 | Splitting one class by its counts into the splitter, queueing all pieces or all but one, keeps the invariant: vertices that agree on every queued class and on the splitter agree on all classes. |
| Refinement.PassStart | src/main/cpp/paige_tarjan_wl1.cpp:58-70 | Taking a class off the queue turns the queue invariant into the invariant of a pass with that class as splitter. |
| Refinement.PassEnd | src/main/cpp/paige_tarjan_wl1.cpp:79-125 | When every class has constant counts into the splitter, the queue invariant holds again without it. |
| Refinement.EmptyQueueEquitable | src/main/cpp/paige_tarjan_wl1.cpp:58-125 | With nothing queued, the invariant says that the partition is equitable. |
| Refinement.SplitKeepsCoarser | src/main/cpp/paige_tarjan_wl1.cpp:84-121 | An equitable partition that refines the one before a split still refines the one after it. |
| Wl1Theory.SameColourSameNeighbours | src/main/cpp/paige_tarjan_wl1.cpp:5-18 | On a symmetric graph two vertices of one colour have equally many neighbours in every colour class. |
| Wl1Theory.SplitOneMidPass | src/main/cpp/paige_tarjan_wl1.cpp:84-121 | Splitting the next adjacent colour keeps the invariant in the middle of a pass, and leaves the colours already handled constant on the splitter. |
| Wl1Theory.RoundProgress | src/main/cpp/paige_tarjan_wl1.cpp:58-125 | A round keeps the state well formed and makes a new colour or shortens the queue, so the loop ends. |
| Wl1Spec.SplitOneRequeues | src/main/cpp/paige_tarjan_wl1.cpp:90-110 | If the split colour was queued, all pieces are queued; if not, all but one, and the one spared is a largest. |
| Wl1Relabel.RelabellingInvariance | src/main/cpp/paige_tarjan_wl1.cpp:28-129 | On a relabelled graph with relabelled colours, rows in any order, the result is the relabelled colour array with identical ids. |
| Wl1Relabel.OrbitMatesShareColour | src/main/cpp/paige_tarjan_wl1.cpp:28-129 | An automorphism that keeps the initial colours maps every vertex to one of the same final colour, which is what pruning by colour rests on. |
| Wl1Cost.PopsLogarithmic | src/main/cpp/paige_tarjan_wl1.cpp:58-110 | Over a whole run each vertex is in at most floor(log2 n) + 1 popped classes. |
| Wl1Cost.NewPieceHalved | src/main/cpp/paige_tarjan_wl1.cpp:90-110 | A vertex whose class was not queued and is queued by a split is in a piece at most half as large. |
| Wl1Cost.ScansBounded | src/main/cpp/paige_tarjan_wl1.cpp:63-70 | The arcs scanned in a whole run are at most (floor(log2 n) + 1) times the number of arcs, `offsets[n] - offsets[0]`. |
| Wl1Cost.RowsTelescope | src/main/cpp/paige_tarjan_wl1.cpp:63-64 | The rows of all vertices together are exactly the entries between the first and the last offset. |
| Wl1Moves.RoundMovesBound | src/main/cpp/paige_tarjan_wl1.cpp:111-120 | A round changes the colour of at most as many vertices as it scans arcs. |
| Wl1Moves.MovesBounded | src/main/cpp/paige_tarjan_wl1.cpp:111-120 | Over a whole run vertices change colour at most (floor(log2 n) + 1) times the number of arcs. |
| Wl1.CalculateColourDegrees | src/main/cpp/paige_tarjan_wl1.cpp:61-70 | The degree tables hold, for every vertex, the number of arcs into it from the splitter, the touched vertices and the top degree of each colour; the scan visits exactly the rows of the splitter. |
| Wl1.ColoursToSplit | src/main/cpp/paige_tarjan_wl1.cpp:71-82 | Lists in ascending order exactly the colours whose vertices differ in degree, with their least degrees. |
| Wl1.NameDegrees | src/main/cpp/paige_tarjan_wl1.cpp:93-110 | The degrees of one colour in ascending order: the least keeps the colour, every other one takes the next fresh colour, and what is queued goes to the end. |
| Wl1.SplitUpColour | src/main/cpp/paige_tarjan_wl1.cpp:84-121 | Splitting a colour on the class lists and queue flags is the specified split of the colouring. |
| Wl1.OneRound | src/main/cpp/paige_tarjan_wl1.cpp:58-125 | One turn of the loop on the tables is the specified round. In its result a vertex keeps its colour exactly if none of its class receives fewer arcs from the popped class, the others have fresh colours ordered by old colour and then by arcs received; the rest of the queue stays in front. The degree tables are cleared, and the rows of the popped class scanned. |
| Wl1.SetUp | src/main/cpp/paige_tarjan_wl1.cpp:33-56 | Initial colours become the number of smaller colours given, and every colour c is queued once, in place c. |
| Wl1.Run1WL | src/main/cpp/paige_tarjan_wl1.cpp:28-129 | The loop over its tables computes the colouring that the theorems speak of, with ids below k0 in the order of the given colours, and scans as many arcs as the specified run. |
| Wl1.Compute1WLColorsFrom | src/main/cpp/paige_tarjan_wl1.cpp:155-172 | The entry point returns the coarsest equitable partition with dense ids. With k0 colours given, all ids below k0 occur, and a vertex that has one has the number of given colours smaller than its own. The arc-scan bound holds, and the searches in class lists take at most n times that many steps. |
| Wl1Order.ColoursFollowGiven | src/main/cpp/paige_tarjan_wl1.cpp:33-43 | With k0 different colours given, every id below k0 occurs in the result, and among vertices with such ids the ids are in the order of the given colours: each is the number of smaller colours given. |
| Wl1Order.RoundIds | src/main/cpp/paige_tarjan_wl1.cpp:58-125 | After a round a vertex has its old colour exactly if it receives as few arcs as any of its class. Fresh colours ascend with the old colour and then with the arcs received, and none is skipped. |
| Wl1Order.SplitOneIds | src/main/cpp/paige_tarjan_wl1.cpp:90-110 | In one split the vertices of least degree keep the colour; fresh ids ascend with the degree. |
| Wl1Order.SplitOneQueue | src/main/cpp/paige_tarjan_wl1.cpp:97-110 | A split leaves the queue in front and appends pieces of the split class in ascending order of degree. |
| Wl1Order.RoundQueue | src/main/cpp/paige_tarjan_wl1.cpp:58-60 | First in, first out: what a round adds stands behind the rest of the queue. |
| Wl1Order.SparedIsFirst | src/main/cpp/paige_tarjan_wl1.cpp:90-91 | Of the largest pieces of a class that was not queued the one of least degree is left out. |
| PassSteps.StoppedEquitable | src/main/cpp/nauty/nausparse.c:864-865 | Where a refinement stops, with no cell active or with n cells, a correct active set means that the partition is equitable. |
| NestRefinement.CoarsestUnique | src/main/cpp/nauty/naugraph.c:341-480 | Two coarsest equitable refinements of one partition have the same classes, whatever the order of splits. |
| BucketSort.PlacesPermute | src/main/cpp/nauty/naugraph.c:444-468 | Sending each position to its place by count, stably, permutes the cell. |
| BucketSort.KeySorted | src/main/cpp/nauty/naugraph.c:446-468 | The cell comes out ascending by count, one block for each count. |
| RefineInPlace.CutByVertex | src/main/cpp/nauty/naugraph.c:375-406 | Sifting a cell by adjacency to one vertex cuts it along that adjacency and changes no other cell; all parts of an active cell are active, and of one that was not, only a largest part is not. |
| RefineInPlace.MarkMid | src/main/cpp/nauty/naugraph.c:391-406 | The cut is marked and counted; if the old cell was active both parts are now active, otherwise one is and the one left out is at least as large, the first one of two equal parts; the hint is set to a part of a single vertex that became active. |
| RefineInPlace.MarkBlocks | src/main/cpp/nauty/naugraph.c:444-465 | The pass over the buckets turns counts into places, ends a cell at every change of count, makes the later blocks active, finds the first of the largest blocks, and leaves the hint at the last new block of a single vertex. |
| RefineInPlace.CutByCounts | src/main/cpp/nauty/naugraph.c:420-473 | Counting, bucket sort and activation cut a cell along its counts and change no other cell, with the same rule for what becomes active. |
| RefineInPlace.MarkAndPlace | src/main/cpp/nauty/naugraph.c:444-473 | The cell is cut into one block for each count, sorted; of a cell that was not active all blocks become active but a largest one. |
| RefineInPlace.Refine1 | src/main/cpp/nauty/naugraph.c:341-480 | Returns a run from the input to the result, whose every step takes the hinted, next or first active cell, cuts all cells along exactly what is counted for it in ascending order, and activates all pieces of a class but the first of the largest; it stops with nothing active or n cells. The result is equitable on telling digraphs and the coarsest equitable one on mirrored ones, from any correct active set; no refinement equitable both ways is cut; if no active cell cuts anything, nothing changes. |
| RefineInPlace.StartWithAll | src/main/cpp/nauty/naugraph.c:341-365 | With all cells active the queue invariant holds, so the previous row applies. |
| PassSteps.CutDone | src/main/cpp/nauty/naugraph.c:371-474 | Cutting one more cell by a sorted key keeps the exact description of the pass so far: every vertex stands behind as many vertices of its class as have a smaller key, and what is active. |
| PassSteps.PassOver | src/main/cpp/nauty/nausparse.c:908-990 | Cells whose vertices have one key may be passed over: the description of the pass covers them as well. |
| PassSteps.StepClasses | src/main/cpp/nauty/naugraph.c:371-474 | A step keeps two vertices together exactly if they were together and have one key, keeps the order of the classes, and puts the pieces of a class in the order of their keys. |
| PassSteps.QuietStep | src/main/cpp/nauty/naugraph.c:371-474 | A key that tells no vertices of one class apart changes nothing but the cell that was taken from the active ones. |
| PassSteps.StepKeepsQueue | src/main/cpp/nauty/nausparse.c:864-1124 | If the key tells apart all vertices of a class that differ on the cell taken, a correct active set stays correct. |
| PassSteps.StepUses | src/main/cpp/nauty/nausparse.c:864-1124 | A step refines the partition and spares a largest piece of every class that was not active, as the bound on uses asks. |
| Hints.HintsFurther | src/main/cpp/nauty/naugraph.c:396-405 | The pieces that set the hint while cells are cut one after another are those that the whole pass sets it by, in the order of their positions. |
| CutRuns.CuttingDone | src/main/cpp/nauty/naugraph.c:371-474 | One more cell cut keeps the description of the pass together with the hint. |
| CutRuns.CutPlaces | src/main/cpp/nauty/naugraph.c:371-474 | Where a step puts every vertex, counted in the graph: a single vertex x moves behind the members of their class adjacent to x those that are not; a larger cell puts each vertex behind those of its class with fewer arcs into the cell. |
| CutRuns.HintIsLast | src/main/cpp/nauty/naugraph.c:396-461 | After a step the hint is the last position where a single vertex was cut off and either is not the first piece of its class or the cell used was a single vertex and the class inactive; without one it stays. At first it is 0. |
| CutRuns.TellingKeepsQueue | src/main/cpp/nauty/naugraph.c:363-475 | On a telling digraph a step from a correct active set leads to a correct active set. |
| CutRuns.RunEquitable | src/main/cpp/nauty/naugraph.c:341-480 | From a correct active set every run on a telling digraph ends equitable. |
| CutRuns.RunCoarsest | src/main/cpp/nauty/naugraph.c:341-480 | If each direction of the arcs tells the other, it ends with the coarsest equitable partition. |
| CutRuns.RunCutsNone | src/main/cpp/nauty/naugraph.c:341-480 | On every digraph a run cuts no refinement that is equitable both ways. |
| CutRuns.RunUndisturbed | src/main/cpp/nauty/naugraph.c:363-475 | If no active cell distinguishes vertices of one class, a run leaves the partition as it is. |
| CutRuns.SymmetricIsMirrored | src/main/cpp/nauty/naugraph.c:341-480 | In undirected graphs each direction tells the other. |
| CutRuns.TournamentIsMirrored | src/main/cpp/nauty/naugraph.c:341-480 | In tournaments each direction tells the other. |
| RefinementLimits.NotTelling | src/main/cpp/nauty/naugraph.c:370-390 | A digraph that is not telling has a vertex and two others that make the next row apply. |
| RefinementLimits.UntoldMissed | src/main/cpp/nauty/naugraph.c:370-425 | For every digraph that is not telling there is a nest with a correct active set such that no partition that meets the contract of refine1 for it is equitable, and some partition meets it. |
| RefinementLimits.EquitableExactly | src/main/cpp/nauty/naugraph.c:167-168 | The contract of refine1 makes the result equitable from every correct active set if and only if the digraph is telling. |
| OrbitCells.OrbitsEquitable | src/main/cpp/nauty/naugraph.c:341-480 | The orbits of any group of automorphisms of a digraph are equitable for the arcs that leave and for the arcs that enter. |
| OrbitCells.AutomorphismsSurvive | src/main/cpp/nauty/naugraph.c:341-480 | On any digraph, vertices exchanged by automorphisms that keep the starting cells end in one cell. |
| RefinementLimits.DigraphMissed | src/main/cpp/nauty/naugraph.c:370-425 | On a digraph of five vertices with all cells active, every partition that meets the contract of refine1 is the starting one, which is equitable in neither direction. |
| RefinementLimits.FourCycle | src/main/cpp/nauty/naugraph.c:410-441 | The directed cycle of four vertices is not telling, yet from its one cell nothing is cut and that is equitable. |
| NestCost.NewPieceHalved | src/main/cpp/nauty/naugraph.c:396-405 | Where a largest piece is spared, a piece that becomes active is at most half of a class that was not active. |
| NestCost.SparedLargest | src/main/cpp/nauty/naugraph.c:469-473 | The cell position that the code leaves out is a largest piece of the class, and of several largest ones the one that is meant. |
| NestCost.StillAffordable | src/main/cpp/nauty/naugraph.c:469-473 | A step that spares largest pieces keeps, for every vertex, the bound that ties the size of its cell to the number of its uses. |
| NestCost.UsesLogarithmic | src/main/cpp/nauty/naugraph.c:363-475 | Over every run, each step of which takes an active cell, refines the classes, and activates all pieces but a largest of those that were not active, no vertex is in more than floor(log2 n) + 1 of the splitting cells. |
| NestCost.TakenAffordable | src/main/cpp/nauty/naugraph.c:363-368 | Taking a cell charges its vertices once, and none of them can have been charged more than log2(n) times before. |
| SameRefinement.SamePartition | src/main/cpp/nauty/naugraph.c:341-480 | From the same starting classes, for the same arcs, a nest refinement and run1WL end in the same classes. |
| SameRefinement.SameInPlace | src/main/cpp/nauty/nausparse.c:646-1128 | On undirected graphs refine1 and refine_sg end in the same classes, in whatever order they split. |
| Compositions.BothWays | src/main/cpp/nauty/nausparse.c:646-1128 | Calling refine1 and refine_sg on copies of one nest of an undirected graph ends in the same classes. |
| StepRelabel.StepCarried | src/main/cpp/nauty/naugraph.c:371-474 | Two steps that take the same cell, with keys and cells relabelled alike, end with the cells relabelled alike and the same cells active. |
| CutRelabel.RefinementRelabels | src/main/cpp/nauty/naugraph.c:341-480 | On a relabelled digraph with the cells relabelled, any two results of refine1 have the same cell ends, active cells and number of cells, and every cell holds the relabelled vertices. |
| SparseRelabel.SparseRelabels | src/main/cpp/nauty/nausparse.c:646-1128 | The same for refine_sg, the distance split included. |
| Compositions.RelabelledBoth | src/main/cpp/nauty/naugraph.c:341-480 | Calling refine1 on a nest and on the relabelled nest gives the same ptn, active and numcells, and relabelled cells. |
| Compositions.SparseRelabelledBoth | src/main/cpp/nauty/nausparse.c:646-1128 | Calling refine_sg on both does too, in whatever order the rows list their neighbours. |
| Compositions.SingleOut | src/main/cpp/nauty/nautil.c:612-633 | Calling breakout on an equitable nest and then refine1 ends with the coarsest equitable partition in which the vertex is alone; what is written to ptn is not below level, so all lower levels keep their cells. |
| Breakout.Breakout | src/main/cpp/nauty/nautil.c:612-633 | lab[tc] is the vertex, the others of its cell follow in the order they had, and lab is unchanged outside the cell. ptn[tc] is level and every other entry of ptn is unchanged, so no cell of a lower level changes. The vertex becomes a cell of its own in front of the rest, and only that cell is active; if it was alone already, the cells stay. |
| Breakout.SingledQueue | src/main/cpp/nauty/nautil.c:612-633 | After singling out a vertex of an equitable partition the one active cell is enough: the queue invariant holds, so refinement may go on from there. |
| Breakout.SingledClasses | src/main/cpp/nauty/nautil.c:600-606 | The cell is split into the vertex and the rest, and no other cell changes. |
| Nests.LowerCells | src/main/cpp/nauty/nauty.c:1060-1076 | If entries of ptn changed only from values not below level to such values, as breakout and the refinements change them, each lower level has the cells it had. |
| Distances.DistVals | src/main/cpp/nauty/nausparse.c:592-628 | The breadth-first search, stopped early once all vertices are queued, leaves a distance labelling. |
| Distances.DistancesExact | src/main/cpp/nauty/nausparse.c:584-590 | Such labels are the lengths of shortest paths, and n exactly for unreachable vertices. |
| Distances.DistanceIsFar | src/main/cpp/nauty/nausparse.c:584-590 | They are the least number of steps of any path. |
| Distances.SameDistance | src/main/cpp/nauty/nausparse.c:711-862 | In an equitable partition of a digraph where v0 is alone, vertices of one class are equally far from v0. |
| SparseCells.Partition3 | src/main/cpp/nauty/nausparse.c:739-777 | The three-way pass leaves the two least values sorted in front and everything larger behind, by rearranging within the cell only. |
| SparseCells.DivideCell | src/main/cpp/nauty/nausparse.c:992-1121 | A cell is divided into one cell for each value, sorted, with cell starts and numcells updated; the piece left inactive, if any, is at least as large as the others, the second of two equal ones; the new cells enter the queue in ascending order, the first one in the place of the piece left out. |
| SparseRefine.MarkNeighbours | src/main/cpp/nauty/nausparse.c:887-903 | Marks the neighbours of the splitting vertex and lists the cells of several vertices they are in, each once. |
| SparseRefine.CountHits | src/main/cpp/nauty/nausparse.c:959-983 | HITS counts the arcs from the splitting cell for every vertex of a hit cell, though it is cleared cell by cell; the listed cells are exactly the hit ones. |
| SparseRefine.CutByMarks | src/main/cpp/nauty/nausparse.c:912-950 | Moving marked vertices behind unmarked ones divides the cell by adjacency, with starts, queue order and numcells kept. |
| SparseRefine.FirstSplit | src/main/cpp/nauty/nausparse.c:711-862 | All cells are cut by distance from the vertex of the one active cell, in ascending order, and the queue is what this cut leaves. |
| SparseRefine.SplitNext | src/main/cpp/nauty/nausparse.c:867-1123 | The first cell of a single vertex among the first ten of the queue, else the last one, is taken, all cells are cut by the number of arcs from it, in ascending order, and the queue is what this cut leaves. |
| SparseRefine.SplitAll | src/main/cpp/nauty/nausparse.c:864-1124 | The loop continues the run, one exact step for every cell taken from the queue, until nothing is active or there are n cells. |
| SparseRefine.RefineSg | src/main/cpp/nauty/nausparse.c:646-1128 | For packed neighbour lists of any digraph: returns a run from the input to the result, whose every step takes the cell that the queue gives and cuts all classes by the arcs from it, but the first by distance exactly if the guard holds, activating all pieces of a class but a largest. From a correct active set the result is the coarsest refinement that is equitable for the arcs entering each vertex. |
| SparseRuns.SparseRunCoarsest | src/main/cpp/nauty/nausparse.c:646-1128 | On every digraph, from a correct active set, every such run ends with the coarsest equitable refinement. |
| SparseRuns.SparseRunIsRun | src/main/cpp/nauty/nausparse.c:864-1124 | Every such run is one to which the bound on uses applies. |
| SparseRuns.SparsePlaces | src/main/cpp/nauty/nausparse.c:711-1124 | Where a step puts every vertex, counted in the graph: behind those of its class that fewer arcs lead to from the cell. Only a first cell that is the only active one and a single vertex, at level at most 2 and with at least eight vertices for each cell, puts the nearer vertices in front. |
| SparseRuns.QueueGrows | src/main/cpp/nauty/nausparse.c:866-1121 | The cell taken leaves the queue, the last entry moving to its place. All pieces cut off in the step enter at the end in ascending order; where a piece of an inactive class is spared, the first piece of the class stands for it. |
| QueueOrder.TakenIs | src/main/cpp/nauty/nausparse.c:866-880 | Of the first ten cells in the queue the first one of a single vertex is taken, and if there is none the last cell of the queue. |
| SparseRuns.SparseFine | src/main/cpp/nauty/nausparse.c:711-1124 | What a cell is used by, distances included, tells apart all vertices of a class that differ in the arcs from it. |
| SparseRuns.SparseCoarse | src/main/cpp/nauty/nausparse.c:711-1124 | It tells no vertices apart that an equitable refinement keeps together. |
| QueuePasses.PassingDone | src/main/cpp/nauty/nausparse.c:908-1121 | One more cell cut keeps the description of the pass together with what has entered the queue. |
| SparseRefine.NoFirstSplit | src/main/cpp/nauty/nausparse.c:711-712 | With all cells active the guard of the distance split is false. |
| EdgeConnectivity.EAugPath1 | src/main/cpp/nauty/nauconnect.c:642-687 | A found path raises the value of the flow by one, still unit and conserved; otherwise the flow is unchanged and a cut of exactly its value exists. |
| EdgeConnectivity.PushAlong | src/main/cpp/nauty/nauconnect.c:678-685 | Walking back along the parents moves one unit from s to t and keeps every other balance. |
| EdgeConnectivity.MaxEdgeFlow1 | src/main/cpp/nauty/nauconnect.c:689-707 | The result is at most maxneeded and at most every cut, and is maxneeded or the size of an actual cut; a flow of that value exists. |
| EdgeFlow.FlowAtMostCut | src/main/cpp/nauty/nauconnect.c:689-707 | Weak duality: a flow is no larger than any cut that separates t from s. |
| EdgeFlow.SaturatedCut | src/main/cpp/nauty/nauconnect.c:655-676 | If no residual arc leaves the visited set, the flow equals the arcs leaving it. |
| EdgeFlow.PushedNet | src/main/cpp/nauty/nauconnect.c:682-683 | One step of the update changes the balance of its two ends only, by one. |
| EdgePaths.FlowCountsPaths | src/main/cpp/nauty/nauconnect.c:689-692 | The value is the number of arc-disjoint paths that exist from s to t, up to maxneeded, as documented. |
| EdgePaths.FlowToPaths | src/main/cpp/nauty/nauconnect.c:689-707 | A flow of value k decomposes into k arc-disjoint paths over its arcs. |
| EdgeConnectivity.EdgeConnectivity1 | src/main/cpp/nauty/nauconnect.c:709-739 | For n >= 2, the least number of arcs leaving any nonempty proper vertex set, and some set attains it. |
| EdgeConnectivity.AllPairs | src/main/cpp/nauty/nauconnect.c:730-736 | A bound that holds for the n cyclically consecutive pairs holds for every proper vertex set. |
| EdgeConnectivity.CyclicExit | src/main/cpp/nauty/nauconnect.c:732-735 | Every proper vertex set is left by some cyclically consecutive pair. |
| EdgeConnectivity.IsThisEdgeConnected1 | src/main/cpp/nauty/nauconnect.c:885-914 | TRUE exactly when every proper vertex set has at least c leaving arcs; for n <= 1 exactly when c <= 0. |
| Chromatic.ChromaticNumber2 | src/main/cpp/nauty/nauchromatic.c:10-16 | The interval contract: minchi means minchi-colourable, values above it up to maxchi are the chromatic number, maxchi+1 means that maxchi colours are not enough. |
| Chromatic.Search.ColorNext1 | src/main/cpp/nauty/nauchromatic.c:185-275 | A lowered minsofar is a number of colours that suffices; unless minchi was reached, no extension of the partial colouring uses fewer than minsofar colours and every table is as before the call. |
| Chromatic.Search.TryColour | src/main/cpp/nauty/nauchromatic.c:235-273 | One branch: assign, search, undo, with the same guarantees for the extended colouring. |
| Chromatic.Search.Assign | src/main/cpp/nauty/nauchromatic.c:235-251 | Colouring a vertex keeps counts, colour sets and buckets in step with the partial colouring. |
| Chromatic.Search.Unassign | src/main/cpp/nauty/nauchromatic.c:258-273 | Undoing it restores the state of the uncoloured vertices, and leaves rows of coloured vertices alone. |
| Chromatic.Search.UpdateA1 | src/main/cpp/nauty/nauchromatic.c:164-183 | Adding a colour to the uncoloured neighbours brings their rows in step with the new colouring. |
| Chromatic.Search.ChooseVertex | src/main/cpp/nauty/nauchromatic.c:208-225 | The vertex sees the most colours and, among those, has the most uncoloured neighbours. |
| Chromatic.Search.CutOff | src/main/cpp/nauty/nauchromatic.c:231-233 | Stopping once the next colour would need minsofar colours loses no better colouring. |
| Colouring.BranchComplete | src/main/cpp/nauty/nauchromatic.c:227-233 | Colour symmetry: every proper extension can be turned into one that gives the vertex a used colour or the first unused one. |
| Colouring.NormaliseEdge | src/main/cpp/nauty/nauchromatic.c:332-333 | Any colouring can be renamed so that the two first vertices have colours 0 and 1. |
| GraphText.SizeRoundTrip | src/main/cpp/nauty/gtools.c:498-562 | graphsize inverts encodegraphsize wherever the size stands, for all n below 2^36, in exactly SIZELEN(n) bytes. |
| GraphText.SizeIsPrefix | src/main/cpp/nauty/gtools.c:531-562 | The size written is n itself: byte 63 + n for n at most 62; otherwise byte 126 and three bytes whose 18 bits have the value n, up to 258047; above, twice 126 and six bytes of 36 bits. |
| GraphText.SizeReadsNumber | src/main/cpp/nauty/gtools.c:498-528 | What is read from printable bytes is the value of the bits that stand there, in each of the three forms. |
| GraphText.PrefixIsRead | src/main/cpp/nauty/gtools.c:498-528 | Wherever n stands in plain digits, n is read, and exactly to the end of the digits. |
| Graph6.G6BodyLenIs | src/main/cpp/nauty/gtools.h:60-61 | The body macro equals ceil(n(n-1)/12) for every n. |
| Graph6.D6BodyLenIs | src/main/cpp/nauty/gtools.h:66-67 | The digraph body macro equals ceil(n*n/6) for every n. |
| Graph6.LengthsArePlain | src/main/cpp/nauty/gtools.h:58-68 | SIZELEN is 1, 4 or 8 for n up to 62, up to 258047, above; the bodies have n(n-1)/2 and n*n bits, divided by six and rounded up. |
| Graph6.Ntog6 | src/main/cpp/nauty/gtools.c:1699-1740 | Writes the number n in plain digits, then for i < j bit j(j-1)/2 + i is whether i is adjacent to j, padded with zeros to whole printable bytes, a newline and a NUL: G6LEN(n) + 2 bytes. |
| Graph6.Ntod6 | src/main/cpp/nauty/gtools.c:1653-1695 | Writes an ampersand, the number n in plain digits, then bit i n + j is whether there is an arc from i to j, padded with zeros, a newline and a NUL: D6LEN(n) + 2 bytes. |
| Graph6.Graph6IsPlain | src/main/cpp/nauty/gtools.c:1699-1740 | Any text that meets the specification is, byte for byte, the plain one described for Ntog6. |
| Graph6.Digraph6IsPlain | src/main/cpp/nauty/gtools.c:1653-1695 | The same for digraph6. |
| Graph6.ReadGraph6 | src/main/cpp/nauty/gtools.c:676-697 | The graph read has an edge exactly where the body has a 1, at bit j(j-1)/2 + i behind the number that stands as size, whether edges are added or flipped into an empty graph, and whatever bytes stand there. |
| Graph6.ReadDigraph6 | src/main/cpp/nauty/gtools.c:698-718 | The digraph read has an arc exactly where the body has a 1, at bit i n + j behind the size, added or flipped. |
| Graph6.Graph6RoundTrip | src/main/cpp/nauty/gtools.c:1699-1740 | Reading what was written for a simple graph gives that graph back. |
| Graph6.Digraph6RoundTrip | src/main/cpp/nauty/gtools.c:1653-1695 | Reading what was written for a digraph, loops included, gives that digraph back. |
| SparseGraph6.Sgtog6 | src/main/cpp/nauty/gtools.c:2103-2143 | Setting single bits for the lower neighbours, in the order of the rows, writes graph6 text of the graph, in the same plain terms. |
| SparseGraph6.OneText | src/main/cpp/nauty/gtools.c:1699-1740 | There is only one graph6 text of a graph, so the dense and the sparse writer give the same bytes. |
| Sparse6.Ntos6 | src/main/cpp/nauty/gtools.c:1744-1854 | A colon, the number n in plain digits, and the bits of the lower triangle with the least width nb for which n - 1 is below 2^nb. The last byte is filled with ones, but a zero comes first if more than nb bits are free, the last row is n - 2 and n is 2^nb; then a newline and a NUL. |
| Sparse6.Ntois6 | src/main/cpp/nauty/gtools.c:1858-1978 | A semicolon and then the same for the pairs in which the graph differs from the prior one. |
| Sparse6.CountWidth | src/main/cpp/nauty/gtools.c:1763 | The number of bits for a vertex: 0 for n at most 1, otherwise the one nb with 2^(nb-1) <= n - 1 < 2^nb. |
| Sparse6.Sparse6IsPlain | src/main/cpp/nauty/gtools.c:1744-1854 | Any text that meets the specification has size, width and padding, bit by bit, as described for Ntos6. |
| Sparse6.IncrementalIsPlain | src/main/cpp/nauty/gtools.c:1858-1978 | The same for incremental text. |
| Sparse6.OneSparseText | src/main/cpp/nauty/gtools.c:1744-1854 | There is only one sparse6 text of a graph. |
| Sparse6.SampleText | src/main/cpp/nauty/gtools.c:1744-1854 | Seven vertices with edges 0-1, 0-2, 1-2 and 5-6 are written ":Fa@x^", and that is read back. |
| Sparse6.GraphIsRead | src/main/cpp/nauty/gtools.c:719-783 | Wherever n stands in plain digits behind the colon, the rest is decoded with the least width for n - 1. |
| Sparse6Spec.EdgeBitsAre | src/main/cpp/nauty/gtools.c:1785-1838 | The bits of one edge: whether the row is another one; if it is beyond the next one, its number in nb bits and a zero; and nb bits with the value of the other end. |
| Sparse6.StringToGraph | src/main/cpp/nauty/gtools.c:719-783 | Reading any sparse6 text, of any bytes up to the first that ends it, in chunks of up to six bits, adds exactly the edges that the bits behind the number n decode to with the least width for n - 1. |
| Sparse6.StringToGraphInc | src/main/cpp/nauty/gtools.c:791-943 | Incremental text flips the listed edges on a copy of the prior graph. Plain text is flipped into an empty graph, and that gives the graph of StringToGraph exactly when every listed edge is listed an odd number of times. |
| Sparse6Graphs.FlipIsAdd | src/main/cpp/nauty/gtools.c:936-940 | Flipping a list of edges into an empty graph is adding them exactly when each is listed an odd number of times. |
| Sparse6Graphs.FlipAllHas | src/main/cpp/nauty/gtools.c:936-940 | Flipping changes exactly the pairs that are listed an odd number of times. |
| Sparse6.ReadersDisagree | src/main/cpp/nauty/gtools.c:778-783 | A text of two vertices that lists one edge twice: one reader has the edge, the other has none. |
| Sparse6.Sparse6RoundTrip | src/main/cpp/nauty/gtools.c:1744-1854 | Text of an undirected graph, loops allowed, any n, reads back to that graph with either reader. |
| Sparse6.IncrementalRoundTrip | src/main/cpp/nauty/gtools.c:1858-1978 | Incremental text read against the same prior graph gives the new graph. |
| Sparse6Spec.ReadEdges | src/main/cpp/nauty/gtools.c:1769-1840 | A sorted edge list is what its bits decode to, whatever bits follow. |
| Sparse6Spec.OnesRead | src/main/cpp/nauty/gtools.c:1842-1848 | A tail of ones decodes to nothing exactly unless it holds a group, the last vertex is n-2 and n is the full power of two: the case the writer tells apart. |
| Sparse6Spec.PaddingReadsNothing | src/main/cpp/nauty/gtools.c:1842-1848 | With the 0 that the writer puts there, padding never decodes to an edge. |
| StronglyConnected.StronglyConnected | src/main/cpp/nauty/gutil2.c:658-718 | TRUE exactly when n > 0 and every vertex reaches every other. |
| StronglyConnected.EarlyFalse | src/main/cpp/nauty/gutil2.c:696-697 | A finished vertex other than the root with lowlink equal to its number lies in a set without the root that no arc leaves, so the digraph is not strong. |
| StronglyConnected.AtTheEnd | src/main/cpp/nauty/gutil2.c:696-717 | When the root is finished, strongness is the same as having visited all n vertices. |
| StronglyConnected.PopPassed | src/main/cpp/nauty/gutil2.c:696-701 | After a vertex is left, every finished vertex has passed its lowlink on: the stack entry that comes last before it in number has a lowlink no higher. |
| StronglyConnected.LeftReachesLower | src/main/cpp/nauty/gutil2.c:697-701 | A vertex that is left without the early FALSE reaches a vertex with a lower number. |
| Orbits.OrbJoin | src/main/cpp/nauty/nautil.c:265-287 | The result is the finest partition coarser than the input with i and map[i] together, each entry the least of its cell after one pass, and the number of cells is returned. |
| Orbits.LeastMember | src/main/cpp/nauty/nautil.c:282-286 | Each entry is the least member of its cell and names itself. |
| GroupOrbits.JoinedCellsAreOrbits | src/main/cpp/nauty/nautil.c:265-287 | Joining along the generators one by one ends with exactly the orbits of the generated group. |
| ArcOrbits.FindArc | src/main/cpp/nauty/gtnauty.c:917-944 | Binary search finds the arc that is present. |
| ArcOrbits.ArcTable.FirstGenerator | src/main/cpp/nauty/gtnauty.c:970-984 | Walking the cycles of the first generator joins each arc to its image, and counts the cells. |
| ArcOrbits.ArcTable.NextGenerator | src/main/cpp/nauty/gtnauty.c:989-1007 | A later generator joins each arc to its image in place, and counts the cells. |
| ArcOrbits.ArcTable.ArcOrbitJoin | src/main/cpp/nauty/gtnauty.c:946-1008 | After every call arcorbits holds the orbits on arcs of the group generated so far, and numarcorbits their number. |
| ArcOrbits.LabelsAreArcOrbits | src/main/cpp/nauty/gtnauty.c:946-1008 | Equal labels mean that a group element maps one arc to the other. |
| ArcOrbits.ArcTable.ArcOrbToEdgeOrb | src/main/cpp/nauty/gtnauty.c:1010-1037 | On an undirected graph arcs then have the same label exactly when their edges are in one orbit, and the number of edge orbits is returned. |
| ArcOrbits.EdgesJoined | src/main/cpp/nauty/gtnauty.c:1016-1030 | Joining each arc with its reverse, although only rising arcs are looked at, turns arc orbits into edge orbits. |
| Pruning.FmPerm | src/main/cpp/nauty/nautil.c:378-411 | fix is the set of fixed points, mcr the set of least points of the cycles. |
| Pruning.LongPrune | src/main/cpp/nauty/nautil.c:646-661 | A vertex stays exactly if it is in mi for each pair with fix inside fi. |
| Pruning.LeastIsSpared | src/main/cpp/nauty/nautil.c:646-661 | The least vertex of an orbit of the automorphisms that fix fix is in every mi that is applied. |
| Pruning.PruningIsSound | src/main/cpp/nauty/nautil.c:646-661 | If the cell was a union of such orbits, every vertex removed has its orbit's least vertex still there. |
| Pruning.OtherWayUnsound | src/main/cpp/nauty/nautil.c:637-642 | Intersecting whenever fi is a subset of fix would remove the least vertex of an orbit. |
| GroupElements.Factorises | src/main/cpp/nauty/naugroup.c:332-362 | Every element of a level's group is a product of one representative for each remaining level and an element fixing the points of the rest. |
| GroupElements.FactorsUnique | src/main/cpp/nauty/naugroup.c:332-362 | The product form is unique. |
| GroupListing.ListIsGroup | src/main/cpp/nauty/naugroup.c:366-388 | The list of products has every element of the generated group exactly once, the identity first. |
| GroupListing.ListLength | src/main/cpp/nauty/naugroup.c:332-362 | Its length is the product of the orbit sizes. |
| GroupListing.ListOrder | src/main/cpp/nauty/naugroup.c:332-362 | The list consists of one block for each representative of the last level, in order; in the block of a representative stand the products of the other levels, each begun by what came before followed by that representative, point by point. |
| Groups.Group.MakeCosetReps | src/main/cpp/nauty/naugroup.c:206-273 | Every level gets a transversal: each representative is a group element mapping fixedpt to its image, the images are the orbit, without repetition; nothing else of the levels changes. |
| Groups.SearchComplete | src/main/cpp/nauty/naugroup.c:250-271 | When the queue is exhausted the images are closed under the generators, hence the whole orbit. |
| Groups.NextRep | src/main/cpp/nauty/naugroup.c:265-268 | A representative followed by a generator is a representative of the new image. |
| Groups.Group.NextPtr | src/main/cpp/nauty/naugroup.c:346-355 | The product is the right permutation whether it is a null pointer, a stored representative, an outer product or the scratch buffer, and what lies below the buffer is untouched. |
| Groups.Group.GroupElts | src/main/cpp/nauty/naugroup.c:332-362 | The action is called on the specified products in order, and the buffers of outer products are as before. |
| Groups.Group.AllGroup | src/main/cpp/nauty/naugroup.c:366-388 | The action is called exactly once on every element of the group, the identity first, as many times as the product of the orbit sizes, in the order of the list. |
| Automorphisms.IsAutom | src/main/cpp/nauty/naugraph.c:67-87 | With digraph TRUE the answer is whether perm is an automorphism; with FALSE, on a symmetric graph, whether it keeps adjacency between different vertices, which is the right answer exactly when keeping it entails keeping the loops. |
| Automorphisms.LoopFreeKeepsLoops | src/main/cpp/nauty/naugraph.c:60-65 | Without loops, keeping adjacency between different vertices is being an automorphism. |
| Automorphisms.ForwardIsEnough | src/main/cpp/nauty/naugraph.c:75-86 | A permutation that maps arcs to arcs maps non-arcs to non-arcs. |
| Automorphisms.LoopsUnseen | src/main/cpp/nauty/naugraph.c:78-80 | A graph and a map that keeps edges but not loops. |
| CheapAutom.CheapAutom | src/main/cpp/nauty/naugraph.c:495-515 | With k the number of vertices minus the number of cells, the answer is whether k is at most the number of cells of several vertices plus one, or at most 4. |
| CheapAutom.FinerStaysCheap | src/main/cpp/nauty/naugraph.c:490-491 | TRUE for a partition gives TRUE for every finer one, as nauty assumes. |
| CheapAutom.CheapIsSound | src/main/cpp/nauty/naugraph.c:502-514 | If k <= nnt + 1, the cells of an equitable partition are the orbits of the group generated by one automorphism. |
| SmallCells.CheapAutomSound | src/main/cpp/nauty/naugraph.c:495-515 | Whenever the answer is TRUE, vertices share a cell exactly when a cell-preserving automorphism maps one to the other, the k <= 4 case included. |
| SmallCells.FiveIsTooMany | src/main/cpp/nauty/naugraph.c:495-515 | An equitable partition of eight vertices with k = 5 and three cells of several vertices whose cells are no orbits: neither bound could be larger. |
| AhuSpec.LabelsDecide | src/main/cpp/colored_ahu.cpp:57-66 | Two labels of the registry are equal exactly when the coloured trees that their keys stand for are isomorphic. |
| AhuSpec.SameLabelIffIsomorphic | src/main/cpp/colored_ahu.cpp:93-129 | For vertices of any two trees encoded since the last reset, equal labels mean isomorphic coloured subtrees and conversely. |
| AhuSpec.LabelMeansSubTree | src/main/cpp/colored_ahu.cpp:93-129 | The tree that a vertex's label stands for is isomorphic to the vertex's subtree, whatever the order of its row. |
| AhuSpec.ChildBelow | src/main/cpp/colored_ahu.cpp:7-8 | Every child's label is below its parent's. |
| AhuRegistry.Registry.Intern | src/main/cpp/colored_ahu.cpp:57-66 | Returns the label of the key; a known key adds nothing, a new one is appended, and old labels keep their keys. |
| AhuRegistry.Registry.EncodeTree | src/main/cpp/colored_ahu.cpp:93-129 | The stack search labels exactly the vertices of the tree, children before parents, only adds to the registry, and touches no other label. |
| AhuRegistry.Registry.EnsureStringsUpTo | src/main/cpp/colored_ahu.cpp:74-89 | Every label up to the bound has its canonical string afterwards, with the strings of the children in dictionary order; every child string it needs is there. |
| AhuRegistry.Registry.CanonicalString | src/main/cpp/colored_ahu.cpp:178-185 | The string of the tree of the label: its colour or *, and the strings of its children in dictionary order, in parentheses; the empty string for a label out of range. |
| AhuTrees.SameStringIff | src/main/cpp/colored_ahu.cpp:68-89 | For colours without parentheses, strings are equal exactly when the trees are isomorphic once "*" counts as uncoloured. |
| AhuTrees.Collisions | src/main/cpp/colored_ahu.cpp:10-11 | Two pairs of non-isomorphic trees with equal strings: one by a parenthesis in a colour, one by the colour "*". |
| AhuTrees.CanonicalShape | src/main/cpp/colored_ahu.cpp:74-89 | The string of a tree is its colour, or * if it has none, and then the strings of its subtrees, all in parentheses. For i < j string i is a prefix of string j or smaller at the first place where they differ. |
| AhuTrees.TwoLeaves | src/main/cpp/colored_ahu.cpp:83 | A root with a leaf of colour a and an uncoloured leaf, in either order, has the string "(*(*)(a))". |
| AhuRegistry.StringsDecide | src/main/cpp/colored_ahu.cpp:74-89 | With plain colours other than "*", distinct labels have distinct strings. |
| AhuRegistry.StringOfVertex | src/main/cpp/colored_ahu.cpp:74-89 | The string of a vertex's label depends on its coloured subtree only, not on the history of the registry. |

## Left out

- Wl1.Run1WL: the local vectors and the deque are sequences that the methods reassign; only the arc scans and the steps of the linear search that removes a vertex from its class are counted.
- RefineInPlace.Refine1: an equitable result is promised on telling digraphs only, because on every other one it fails from some correct active set; which of the others do well when all cells are active is not determined; the general-m `refine` differs by word indexing and is not repeated; the hash code is not modelled.
- SparseRefine.RefineSg: marks are sets, `sortints` and `sortindirect` are sorts by value, NAUTY_INFINITY is a parameter above n; the hash code is not modelled.
- Chromatic.ChromaticNumber2: the width of a machine word is a parameter that is at least n; `chromaticnumber1` and the general-m `chromaticnumber3` are not modelled.
- Sparse6.Ntos6: the int overflow of the shifted `rr` for more than 2^30 vertices and the growth of the output buffer are not modelled.
- Sparse6.StringToGraph: the bytes of the size must not lie below 63, because the size they would give is negative, and the text must have an end; `stringtograph` and `stringtograph_inc` are modelled as one method for each of their formats.
- Groups.Group.AllGroup: representatives are values, which the code never changes once made; the abortable variants `allgroup2` and `allgroup3` are not modelled, and that the levels form a stabiliser chain is what the search that records them promises.
- Automorphisms.IsAutom: with digraph FALSE loops are not looked at, so the contract speaks of edges between different vertices.
- AhuRegistry.StringsDecide: colours with parentheses and the colour "*" are excluded because the claim is false for them.
- AhuRegistry.Registry.EncodeTree: the rows must be those of a tree below the root, parallel arcs to the parent allowed; the hash function of the registry is not modelled.
- The search tree of nauty and Traces, the Schreier-Sims code, and the SAT encodings.
- Vertex connectivity, the general-m copies of the flow and colouring routines, vertex invariants, and `conncontent`.
- The order in which bits are stored in a word: it decides which of several equal choices is made first, and no result depends on it.
- Memory allocation, file reading and writing, headers, planar code and edge code, argument parsing, floating-point group sizes, random numbers.
- The JNI layer, the MPI and OpenMP code under `external`, and the Python scripts.
