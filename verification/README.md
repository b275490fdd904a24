# The maze engine and four small algorithms, verified

This project models the cylindrical maze engine of `Test00/MZ.cpp` and `Test00/CL.cpp`, and four self-contained
pieces of code beside it: the Aho-Corasick step and trie lookup of `my_trie.h`, the compare-and-swap loops of
`my_atomic.h`, the result set dump of `xmysql.cpp` and `skip_trailing_space` of `m_string.h`.

`dafny verify dfyconfig.toml` checks everything.

## The maze engine

A maze is a grid of cells, row by row. Rows wrap from top to bottom, columns do not. A cell packs its four walls into
one character, and the two cells that share a segment both record it. The route search never steps right out of the
entrance and never left out of the exit.

* `Cells.dfy`: the class `CL`. Walls as bits of a signed eight-bit character, raw `+=` and `-=` on it, both character
  translations.
* `Grid.dfy`, `Counting.dfy`: the matrix as a value, the four neighbour functions, steps, walks, reachability; counting
  the marked positions of a list.
* `Routes.dfy`, `Order.dfy`, `Escape.dfy`, `Symmetry.dfy`: the level-by-level search with lists of routes as a function,
  the tree it builds, which of equally short routes it finds and in which order it lists them, exactly when it looks at
  cell -1, and how it commutes with renumberings of the cells.
* `Walls.dfy`, `Generation.dfy`, `Frame.dfy`, `Segments.dfy`: the wall-state invariant, one turn of a generator loop and
  any number of turns, the starting cylinder, and wall counting.
* `Lattice.dfy`, `Handshake.dfy`, `Drawing.dfy`, `Repair.dfy`: lattice points and their degrees, which add up to twice the
  number of segments, the drawing index arithmetic, and the repair step.
* `Statistics.dfy`, `Shift.dfy`, `Loading.dfy`: route statistics, `shiftDown`, and strings as mazes.
* `Maze.dfy`: the class `MZ` with the fields the program has. Its methods are the program's methods, split where they
  are long; each takes or returns the maze it works on as a ghost value (`Holds(g)`: the matrix is coded as `g`;
  `Current(g)`: besides, every derived field is that of `g`), and its contract says what it makes of that value.

`rand()` is any number from 0 to `RAND_MAX`; `AddRandomWall`, `AddRandomEntrance` and `AddRandomExit` take it as a
parameter and say which cell it names. So every statement about the generator is about every run of it.
`std::vector::at` with a bad index throws: `UpdateRoutes` and `SetMZ` say exactly when.

The main line of the argument for the generator: the wall-free cylinder is connected (`OpenCylinder`); each turn of the
three loops adds one segment that leaves everything reachable or restores the matrix exactly (`MZ.TryWall`,
`Generation.TurnsKeep`); the repair step adds walls without looking, and the detour round each new wall stays open
because a chain of bare lattice points ends at the latest above row 0 (`Repair`). `MZ.GenerateMZ` puts it together, and
`Generation.EveryRun` says the same of the sequence of mazes alone.

## The four small algorithms

* `Trie.dfy`: nodes are objects linked by `links`, `next` and `fail`. `Trie.Shaped` is what `trie_insert` leaves behind
  and `Trie.Prepared` what `ac_trie_prepare` leaves behind; both bodies are not part of this model. Every
  shaped trie can be prepared, in one way only (`Trie.FailIsUnique`).
* `Atomics.dfy`: any number of threads, each in the middle of add, fetch-and-store, load or store, take steps in any
  order. A step is one read of the variable or one compare-and-swap. 32-bit wrap-around is explicit.
* `DumpResult.dfy`: one pass computes the size, one writes ints and strings into an array of bytes through two cursors.
* `TrailingSpace.dfy`: the three loops over addresses, for every alignment of the start.

## Where the model demands something of the caller

* The drawing buffer has 100 columns and rows and is not bounds-checked (`Test00/MZ.cpp:508`): `FitsBuffer`, wherever a
  drawing is made.
* `generateMZ` appends to `mzString` and never clears it (`Test00/MZ.cpp:69-70`), so `GenerateMZ` asks for a string that
  shows no wall in the places it reads (`Blank`). The string of a fresh object is empty, and the program generates only
  with fresh objects (`Test00/MZHandler.cpp:57-60`).
* The dump needs a size that fits an `int`.
* `setMZ` may return false or throw; `MazeLoading.Verdict` tells the three outcomes apart and `MZ.SetMZ` meets it
  exactly.

## Model

| member | source | states |
|---|---|---|
| `MazeEngine.MZ.GenerateMZ` | Test00/MZ.cpp:59-140 | for every outcome of every `rand()`: from an unobstructed sound cylinder, three loops of cells/2 turns lead to `before`; `m_nWalls` is the number of distinct segments of `before`; the result is `before`, repaired iff a lattice point was bare; it is sound, every cell is reachable and `m_bAllCellsReachable` is true, with two columns or more no cell has more than three walls and there is a best route of at least width + 2*opposing cells; `m_minIntersections` is 0 iff a point of lattice row 0 stays bare; and string, drawing, indexes, routes and statistics are those of the result |
| `Generation.EveryRun` | Test00/MZ.cpp:78-137 | whatever the turns of the three loops were: the maze stays sound, every cell stays reachable, no wall is lost, the bound of the loop holds, the last step finishes it, and its least number of segments at a lattice point is 0 iff a point of row 0 stays bare |
| `Generation.TurnsKeep` | Test00/MZ.cpp:84-99 | any number of turns of one loop keeps soundness, reachability and the bound, loses no wall and adds at most one segment for each turn |
| `MazeEngine.MZ.TryWall` | Test00/MZ.cpp:86-92 | one iteration is a `Turn`: the tried wall stays iff everything is reachable, otherwise the matrix is restored exactly; wall count and bound are conserved |
| `MazeEngine.MZ.AddWalls` | Test00/MZ.cpp:84-99 | the loop leads from the given maze by exactly `m_nTries` turns, and everything is reachable at the start of every iteration and at the end |
| `MazeEngine.MZ.Grow` | Test00/MZ.cpp:78-132 | after the loop for k walls no cell has more than k (width >= 2), and the three results lead to each other |
| `Generation.TurnAdds` | Test00/MZ.cpp:246-302 | a turn that changes the maze is the addition of one whole absent segment, after which everything is reachable |
| `Generation.TurnKeeps` | Test00/MZ.cpp:219-302 | a turn keeps soundness and every wall and raises the wall total by 0 or 2 |
| `MazeEngine.MZ.AddRandomWall` | Test00/MZ.cpp:246-302 | for every draw, the cell is its remainder by the number of cells; for that cell and the side: the segment is added on both cells iff the cell has fewer than the maximum, the side does not look outside, and the other cell does not get too many; otherwise the matrix is as before; `m_nWalls` follows and everything derived is current |
| `MazeEngine.MZ.PlaceWall` | Test00/MZ.cpp:246-298 | the same for the part before `updateVectors`, with the early return when the drawn side looks outside |
| `MazeEngine.MZ.CellAcross` | Test00/MZ.cpp:266-281 | the branches find the neighbour across every side, and -1 for a missing side or one that looks outside |
| `MazeEngine.MZ.RemoveWallAt` | Test00/MZ.cpp:219-244 | called on the segment just added it restores the matrix and takes it off `m_nWalls`; the neighbour is always assigned |
| `MazeEngine.MZ.RemoveBoth` | Test00/MZ.cpp:287-298 | the two `-=` undo the two `+=`, also at height one where a vertical segment joins a cell to itself |
| `MazeEngine.MZ.AddRandomEntrance` | Test00/MZ.cpp:169-184 | the right-edge cell of row draw % height is the entrance and exactly the other right-edge cells get a wall; one segment each is counted |
| `MazeEngine.MZ.AddRandomExit` | Test00/MZ.cpp:186-200 | the left-edge cell of row draw % height is the exit and exactly the other left-edge cells get a wall |
| `Generation.FrameIsStart` | Test00/MZ.cpp:76-79 | the framed cylinder is sound, fully reachable, has at most one wall for each cell (width >= 2), and every wall is counted |
| `OpenCylinder.UnobstructedIsReachable` | Test00/MZ.cpp:169-200 | on the cylinder with walled edges and nothing inside every cell is reachable from the entrance |
| `OpenCylinder.UnobstructedIsSound` | Test00/MZ.cpp:169-200 | that cylinder satisfies the wall-state invariant |
| `MazeEngine.MZ.StartEmpty` | Test00/MZ.cpp:61-75 | if the string shows no wall in the places read, the first matrix has none, in fresh cell objects |
| `MazeEngine.MZ.AppendZeros` | Test00/MZ.cpp:69-70 | one `0` for each cell is appended to whatever the string held |
| `WallState.AddKeepsSound` | Test00/MZ.cpp:283-288 | adding a segment on both its cells keeps shared segments in agreement and the edges walled |
| `WallState.AddThenRemove` | Test00/MZ.cpp:242-243 | removing a segment just added restores the maze exactly |
| `WallState.AddSegmentWalls` | Test00/MZ.cpp:287 | exactly the two sides of the segment appear |
| `WallState.AddSegmentTotal` | Test00/MZ.cpp:283-288 | an added segment raises the sum of all wall counts by exactly two |
| `WallState.SoundNeverEscapes` | Test00/MZ.cpp:381-424 | in a sound maze the search never looks up neighbour -1 |
| `Generation.AddedKeeps` | Test00/MZ.cpp:246-302 | an added segment keeps soundness, the bound, and the relation between wall total and `m_nWalls` |
| `Segments.DoubleCount` | Test00/MZ.cpp:491-504 | in every sound maze the wall counts add up to twice the number of distinct segments less 2*(height-1) |
| `Segments.BottomsAreTops` | Test00/MZ.cpp:789-802 | there are as many bottom walls as top walls, because bottom walls are the top walls one row further down, with wrap |
| `Segments.InnerRightsAreLefts` | Test00/MZ.cpp:794-807 | inside, there are as many right walls as left walls |
| `Segments.WalledEdges` | Test00/MZ.cpp:169-200 | each straight edge has height-1 walls |
| `Segments.ConservedCountsSegments` | Test00/MZ.cpp:169-302 | the conserved relation holds iff `m_nWalls` is the number of distinct segments |
| `MazeEngine.MZ.CheckEdgeCompatibility` | Test00/MZ.cpp:745-764 | true iff every two cells that share a segment, also across the vertical wrap, agree about it |
| `MazeEngine.MZ.NeighboursAre` | Test00/MZ.cpp:789-822 | the neighbour functions with their remainders are the geometric neighbours |
| `MazeGrid.NeighbourInvolution` | Test00/MZ.cpp:789-807 | going through a side and back through the opposite one returns to the same cell |
| `MazeGrid.NeighbourAt` | Test00/MZ.cpp:789-807 | in coordinates: up and down wrap, left and right stop at the edges |
| `MazeGrid.VerticalRemainders` | Test00/MZ.cpp:789-802 | the remainder formulas of the two vertical neighbours wrap exactly once |
| `Cells.Encode` | Test00/CL.cpp:5-22 | a wall character that decodes to the given walls |
| `Cells.Decode` | Test00/CL.cpp:75-93 | characters outside the sixteen show no wall at all |
| `Cells.SixteenCodes` | Test00/CL.cpp:75-93 | a wall character is determined by the four walls it shows |
| `Cells.NarrowIsCongruent` | Test00/CL.cpp:111-136 | the conversion back to `char` keeps the remainder modulo 256 |
| `Cells.NumberOfWalls` | Test00/CL.cpp:161-175 | the table counts the four walls of a wall character and gives 5 for any other |
| `Cells.WithWallSets` | Test00/CL.cpp:121-139 | `+=` on an absent wall sets that wall, no other, and stays a wall character |
| `Cells.WithoutWallClears` | Test00/CL.cpp:141-159 | `-=` on a present wall clears that wall, no other, and stays a wall character |
| `Cells.HumanRoundTrip` | Test00/CL.cpp:33-73 | the readable form of a wall character reads back to it and is a hexadecimal digit |
| `Cells.DigitShows` | Test00/CL.cpp:54-93 | what a character means: the hexadecimal digit of value v, read in and translated, shows a top, right, bottom or left wall iff v has the bit 8, 4, 2 or 1 |
| `Cells.WallsShow` | Test00/CL.cpp:33-52 | the readable character of a cell is the hexadecimal digit of 8*top + 4*right + 2*bottom + left |
| `Cells.CL.AddRandomWall` | Test00/CL.cpp:95-119 | a side that shows no wall gets one, for any character that does not show four; both characters agree |
| `Cells.CL.AddWallAtSide` | Test00/CL.cpp:121-139 | both characters after an addition, and no change of walls for a side that does not exist |
| `Cells.CL.RemoveWallAt` | Test00/CL.cpp:141-159 | both characters after a removal |
| `Cells.CL.constructor` | Test00/CL.cpp:24-28 | the readable character is kept as given, the internal one is its translation, so that a hexadecimal digit shows the walls of its bits (`DigitShows`) |
| `Repair.RepairKeepsReachable` | Test00/MZ.cpp:202-217 | adding the right wall of every listed cell at once, with no check, keeps every cell reachable |
| `Repair.Detour` | Test00/MZ.cpp:202-217 | the cells on both sides of a repaired segment stay joined, down along a whole chain of bare lattice points |
| `Repair.StepSurvives` | Test00/MZ.cpp:202-217 | every legal step before the repair can still be walked after it |
| `Repair.RepairKeepsSound` | Test00/MZ.cpp:202-217 | the repair keeps the wall-state invariant |
| `Repair.RepairedWalls` | Test00/MZ.cpp:206-210 | exactly the right walls of the problem cells appear, on both sides |
| `Repair.FillNext` | Test00/MZ.cpp:206-210 | at its turn a listed cell still lacks its right wall, and its neighbour the left one, so both `+=` hit absent bits |
| `Repair.RepairedDegrees` | Test00/MZ.cpp:202-217 | after the repair no lattice point below row 0 is bare |
| `Repair.RepairedCount` | Test00/MZ.cpp:202-217 | a cell with at most three walls has at most three afterwards |
| `Repair.RepairedTop` | Test00/MZ.cpp:202-217 | a point of lattice row 0 is bare after the repair iff it was bare and the point below it was not on the list |
| `Repair.RepairedLeast` | Test00/MZ.cpp:202-217 | the least number of segments at a lattice point is 0 after the repair iff some point of row 0 stays bare |
| `Generation.LeastAtTheEnd` | Test00/MZ.cpp:134-135 | the same for the last step of the generator, with or without a repair |
| `Generation.GeneratorMayLeaveBare` | Test00/MZ.cpp:134-135 | a run on a 2 x 1 maze ends with a bare lattice point, so the last step does not guarantee a least number above 0 |
| `Generation.ReachableIsSolved` | Test00/MZ.cpp:59-140 | a fully reachable sound maze with two columns or more has a best route, of at least width + 2*opposing cells |
| `MazeEngine.MZ.FillWalllessCells` | Test00/MZ.cpp:202-217 | the matrix becomes the repaired maze, everything derived is current and `m_bAllCellsReachable` is true |
| `MazeEngine.MZ.UpdateVisual` | Test00/MZ.cpp:506-537 | the copied buffer is the drawing of the maze: a position is marked iff its segment has a wall |
| `MazeEngine.MZ.UpdateIntersections` | Test00/MZ.cpp:539-591 | entry y*(w+1)+x is the number of sides on which a segment leaves lattice point (x,y) of the cylinder (`DegreeCounts`); the minimum and the list follow from them |
| `MazeEngine.MarkCell` | Test00/MZ.cpp:511-528 | a cell marks exactly the drawing positions it owns |
| `MazeEngine.CountAt` | Test00/MZ.cpp:552-577 | the four lookups with remainders count the segments at one lattice point |
| `Lattice.DegreeCounts` | Test00/MZ.cpp:552-577 | the number at a lattice point is the number of sides, up, right, down and left, on which a segment leaves it |
| `Handshake.TwoEnds` | Test00/MZ.cpp:539-578 | for every maze, sound or not, the numbers at all lattice points add up to twice the number of segments |
| `Handshake.DegreesByRows` | Test00/MZ.cpp:539-578 | the sum of the list is the sum of the degrees of all points, row by row |
| `Lattice.DrawnShows` | Test00/MZ.cpp:511-528 | what is drawn where: top and left wall of every cell, at the right edge also the right wall, in the bottom row also the bottom wall, and nothing else |
| `Lattice.LastRowIsFirst` | Test00/MZ.cpp:511-528 | where edges agree the last drawing row repeats the segments of the first |
| `Drawing.MarksAreDrawn` | Test00/MZ.cpp:511-528 | the marks of all cells together draw every segment once, each by its owner |
| `Drawing.SegmentsInVisual` | Test00/MZ.cpp:552-576 | the four index formulas stay in range and find the four segments at a lattice point |
| `Lattice.ProblemsExact` | Test00/MZ.cpp:580-591 | in a sound maze a cell is listed iff it is off the right edge and its lower right lattice point is bare and below row 0 |
| `Lattice.ProblemsIncrease` | Test00/MZ.cpp:580-591 | the list is strictly increasing, so no cell is listed twice |
| `Lattice.EdgePointsWalled` | Test00/MZ.cpp:539-591 | on the two straight edges no lattice point below row 0 is bare |
| `Lattice.LeastIsPositive` | Test00/MZ.cpp:548-578 | the minimum is 0 iff some lattice point is bare |
| `Repair.ProblemOpen` | Test00/MZ.cpp:580-591 | a problem cell has no right wall, and its right neighbour exists and has no left wall |
| `RouteSearch.BestRouteIsShortest` | Test00/MZ.cpp:329-448 | if the exit is another cell and reachable, `m_vBestRoute` is a legal walk from entrance to exit without repetition that no legal walk undercuts; otherwise it is empty |
| `RouteOrder.BestRouteIsFirst` | Test00/MZ.cpp:369-438 | which shortest route it is: with the least side for each step, top before right before bottom before left, `m_vBestRoute` is the first in dictionary order of all shortest walks from entrance to exit |
| `RouteOrder.PiecesAreFirst` | Test00/MZ.cpp:369-438 | so is every initial piece of every listed route, among the equally long walks from the entrance to the cell where it ends |
| `RouteOrder.RoutesAreListed` | Test00/MZ.cpp:347-448 | in the end `m_vRoutes` lists shorter routes first and equally long ones in dictionary order of their sides |
| `RouteOrder.RoundsAreListed` | Test00/MZ.cpp:347-448 | it is so after every round, so the routes that a round adds are in dictionary order |
| `RouteSearch.VisitedIsReachable` | Test00/MZ.cpp:329-448 | a cell is visited iff it can be reached from the entrance by legal open steps |
| `RouteSearch.AllReachableIffAllVisited` | Test00/MZ.cpp:450-453 | the count of visited cells decides whether every cell is reachable |
| `RouteSearch.RoutesCoverVisited` | Test00/MZ.cpp:347-448 | every visited cell is on some route, and the last cells of the routes are pairwise distinct |
| `RouteSearch.RoutesAreBranches` | Test00/MZ.cpp:347-448 | every initial piece of a route is a shortest walk, and two routes through one cell agree up to it: the routes are the branches of one tree |
| `RouteSearch.BfsTree` | Test00/MZ.cpp:347-448 | the final state is that of a complete breadth-first tree |
| `RouteSearch.KeptStays` | Test00/MZ.cpp:347-448 | a route that a pass keeps, because it could not be extended at its turn, is never extended later: it is still listed at the end of the run |
| `RouteSearch.KeptFails` | Test00/MZ.cpp:361-439 | a pass keeps only routes that could not be extended at their turn |
| `RouteSearch.SweepStill` | Test00/MZ.cpp:361-439 | within a pass no visited cell is forgotten |
| `RouteSearch.RunKeeps` | Test00/MZ.cpp:347-448 | a listed route that failed in a state with no more visited cells is still listed at the end of the run |
| `RouteSearch.RoundKeeps` | Test00/MZ.cpp:347-448 | one round forgets no visited cell and keeps such a route |
| `RouteSearch.KeptForGood` | Test00/MZ.cpp:367-439 | a route that could not be extended cannot be extended in any state that has visited at least as much |
| `RouteSearch.AtMostOneRoundPerCell` | Test00/MZ.cpp:347-448 | the search takes at most as many rounds as there are cells |
| `MazeEngine.EraseLower` | Test00/MZ.cpp:441-444 | erasing from the highest position down, each position is still the right one when its turn comes |
| `MazeEngine.EraseRoutes` | Test00/MZ.cpp:441-444 | the erasures leave exactly the unextended old routes, in order, before the new ones |
| `MazeEngine.LookAtSides` | Test00/MZ.cpp:367-439 | the four blocks extend the route by every unvisited open neighbour, in the order top, right, bottom, left, note it once, and throw iff an open side looks outside |
| `MazeEngine.MZ.SearchRounds` | Test00/MZ.cpp:347-448 | the loop ends with the outcome of the search after exactly its rounds, at most one for each cell, or throws iff the search can get to a cell that is open towards the outside |
| `MazeEngine.MZ.UpdateRoutes` | Test00/MZ.cpp:329-454 | throws iff the entrance is no cell or a reachable cell is open towards the outside; otherwise routes, visited cells, best route and counts are those of the search, whose order `BestRouteIsFirst` and `RoutesAreListed` fix |
| `EscapeSearch.SearchContinues` | Test00/MZ.cpp:347-448 | an uneventful round goes on or has completed the search without any escape |
| `EscapeSearch.CompletedNeverThrows` | Test00/MZ.cpp:347-448 | a completed search proves that no reachable cell is open towards the outside |
| `MazeEngine.MZ.UpdateVectors` | Test00/MZ.cpp:304-320 | everything derived from the matrix is rebuilt, or an exception is thrown exactly when the route search throws |
| `MazeEngine.MZ.UpdateSound` | Test00/MZ.cpp:304-320 | on a sound maze there is no exception and `m_bAllCellsReachable` holds iff every cell is reachable |
| `MazeEngine.MZ.UpdateMZString` | Test00/MZ.cpp:322-327 | the string lists the readable characters of all cells |
| `MazeEngine.MZ.UpdateWallCount` | Test00/MZ.cpp:491-504 | the wall count of every cell, which is the number of its walled sides (`WallCountsSides`) |
| `Lattice.WallCountsSides` | Test00/MZ.cpp:491-504 | the wall count of a cell is the number of sides on which it has a wall |
| `RouteStatistics.BestRouteLength` | Test00/MZ.cpp:142-163 | left steps exceed opposing steps by width-1, so a non-empty best route has at least width + 2*opposing cells |
| `RouteStatistics.ColumnsTelescope` | Test00/MZ.cpp:158-163 | along any walk the left and opposing steps add up to the difference of the end columns |
| `RouteStatistics.HistogramSum` | Test00/MZ.cpp:147-153 | the row histogram adds up to the length of the route |
| `RouteStatistics.HistogramCounts` | Test00/MZ.cpp:149-153 | entry r of the row histogram is the number of positions of the route whose cell lies in row r |
| `RouteStatistics.OpposingCounts` | Test00/MZ.cpp:158-163 | `m_nOpposingSteps` is the number of steps to the next cell of the same row |
| `RouteStatistics.LeftCounts` | Test00/MZ.cpp:158-163 | the left steps are the steps to the cell before in the same row |
| `RouteStatistics.RowsUtilizedIsDistinctRows` | Test00/MZ.cpp:155-156 | `m_iRowsUtilized` is the number of distinct rows of the route |
| `MazeEngine.MZ.CalculateMazeAndRouteStats` | Test00/MZ.cpp:142-163 | histogram, rows utilized and opposing steps are those of the best route, which `HistogramCounts`, `RowsUtilizedIsDistinctRows` and `OpposingCounts` say by counting |
| `MazeEngine.MZ.ShiftDown` | Test00/MZ.cpp:48-57 | the last rows come first and both gates move along, with the remainder of C++ |
| `MazeLoading.ShiftDownUndone` | Test00/MZ.cpp:48-57 | `shiftDown(height-k)` gives string and gates back for 0 <= k <= height |
| `MazeLoading.RotatedLoads` | Test00/MZ.cpp:48-57 | the rotated string with moved gates is the shifted maze |
| `MazeLoading.RotationKeepsVerdict` | Test00/MZ.cpp:20-57 | `setMZ` accepts, rejects or throws alike for a maze and its rotations |
| `MazeEngine.ShiftAndSet` | Test00/MZ.cpp:20-57 | `shiftDown` followed by `setMZ` on the shifted fields has the outcome of the maze as it was, and when accepted everything is that of the shifted maze |
| `MazeLoading.FrontShifts` | Test00/MZ.cpp:20-57 | for every offset the shifted fields load the maze shifted by offset % height, with the same verdict |
| `Rotation.MovedNeighbour` | Test00/MZ.cpp:48-57 | the move commutes with all four neighbour functions |
| `Rotation.MovedCell` | Test00/MZ.cpp:50-55 | cell c of the maze is cell c + k*width of the maze shifted down by k rows, less the number of cells where that is too far |
| `Rotation.ShiftKeepsAgreement` | Test00/MZ.cpp:745-764 | the move keeps edge compatibility |
| `Rotation.ShiftBack` | Test00/MZ.cpp:48-57 | the opposite shift undoes a shift of the maze |
| `Rotation.ShiftMovesRoutes` | Test00/MZ.cpp:329-448 | every route, the best route and the visited cells of the shifted maze are the old ones moved cell by cell |
| `Rotation.ShiftKeepsVisitedCount` | Test00/MZ.cpp:450-453 | the visited count is kept |
| `Rotation.ShiftKeepsStatistics` | Test00/MZ.cpp:142-163 | length, rows utilized and opposing steps of the best route are kept |
| `Rotation.ShiftRotatesHistogram` | Test00/MZ.cpp:147-153 | the row histogram is rotated along |
| `Rotation.ShiftKeepsMinIntersections` | Test00/MZ.cpp:548-578 | the least number of segments at a lattice point is kept |
| `RouteSymmetry.SymmetryMovesRoutes` | Test00/MZ.cpp:329-448 | the search commutes with every renumbering that respects steps, entrance and exit |
| `MazeEngine.MZ.SetMZ` | Test00/MZ.cpp:20-46 | false for an empty or ill-sized string or disagreeing cells, an exception exactly when the search throws, otherwise everything is rebuilt from the string, which is kept; what its characters mean is `DigitShows` |
| `MazeEngine.MZ.CheckMZ` | Test00/MZ.cpp:766-781 | true iff the string is not empty and has one character for each cell |
| `MazeEngine.MZ.InitializeCLMatrix` | Test00/MZ.cpp:456-465 | one fresh object for each cell, with both characters of its string position |
| `MazeLoading.RenderedLoads` | Test00/MZ.cpp:322-327 | reading back the string of a maze gives the maze |
| `MazeLoading.SoundIsAccepted` | Test00/MZ.cpp:20-46 | the string, entrance and exit of every sound maze are accepted |
| `MazeEngine.GenerateAndSet` | Test00/MZ.cpp:20-140 | what a fresh object generates, another one accepts, with the same walls, drawing, indexes, routes, best route and integer statistics |
| `AhoCorasick.Trie.Goto` | Test00/mysql/include/my_trie.h:55-65 | the edge for the character if the longer word is a path, the root for the root without such an edge, NULL otherwise |
| `AhoCorasick.Trie.Search` | Test00/mysql/include/my_trie.h:116-136 | true iff a node with a non-zero leaf is reached by exactly the key |
| `AhoCorasick.Trie.SameWord` | Test00/mysql/include/my_trie.h:21-28 | different nodes are reached by different words |
| `AhoCorasick.Trie.FailIsUnique` | Test00/mysql/include/my_trie.h:28 | in every trie each node but the root has exactly one node to fail to, that of the longest proper suffix that is a path |
| `AhoCorasick.Trie.LongestExists` | Test00/mysql/include/my_trie.h:28 | every text has a longest suffix that is a path |
| `AhoCorasick.Trie.FailSkipsNothing` | Test00/mysql/include/my_trie.h:89-90 | following the failure function passes over no suffix that could be extended |
| `AhoCorasick.Trie.GotoIsLongest` | Test00/mysql/include/my_trie.h:89-91 | the node that ends the failure steps is that of the longest suffix of the text that is a path |
| `AhoCorasick.AcTrieState.Follow` | Test00/mysql/include/my_trie.h:82-92 | the loop ends at the longest suffix, and its failure steps are paid for by characters read |
| `AhoCorasick.AcTrieState.Next` | Test00/mysql/include/my_trie.h:82-92 | after any text the state holds the node of the longest suffix that is a path, all failure steps together never exceed the characters read, and the leaf is returned |
| `AhoCorasick.AcTrieState.SearchIsRun` | Test00/mysql/include/my_trie.h:82-136 | if every non-zero leaf is its depth, a key is stored iff the run over it from the root ends with its length |
| `AhoCorasick.AcTrieState.NodeIsDetermined` | Test00/mysql/include/my_trie.h:82-92 | the state depends on the text alone |
| `AtomicOps.Linearizable` | Test00/mysql/include/my_atomic.h:65-86 | in every interleaving the log of successful swaps is a sequential history of the locked bodies: each swap finds the value that the operations before it leave, and the history ends with the value of the variable |
| `AtomicOps.ReturnsWereThere` | Test00/mysql/include/my_atomic.h:65-76 | in every interleaving every operation returns the value of the variable just before its successful swap, as left by the operations before it |
| `AtomicOps.AdditionsReturnSums` | Test00/mysql/include/my_atomic.h:65-70 | in an interleaving without stores each operation returns the initial value plus the sum of all additions completed before it, modulo 2^32 |
| `AtomicOps.SumsBefore` | Test00/mysql/include/atomic/rwlock.h:52 | so does every sequential history without stores, at every position |
| `AtomicOps.WrapIsCongruent` | Test00/mysql/include/my_atomic.h:65-70 | wrapped sums are congruent modulo 2^32 |
| `AtomicOps.StepRefines` | Test00/mysql/include/atomic/rwlock.h:52-56 | a step changes nothing or is exactly the locked body of the operation its thread called |
| `AtomicOps.FetchAndStoreConserves` | Test00/mysql/include/my_atomic.h:71-76 | in every interleaving, whatever operations are mixed: initial value plus all values written equals all values returned or displaced plus the current value, as multisets |
| `AtomicOps.FetchAndAddSums` | Test00/mysql/include/my_atomic.h:65-70 | in every interleaving the variable is the initial value plus the sum of completed additions plus what the stores moved it by, modulo 2^32; without stores it is the sum alone |
| `AtomicOps.FailuresAreCovered` | Test00/mysql/include/my_atomic.h:65-76 | the failed swaps of an operation, and the one to come if the variable has changed, never exceed the writes of other threads since it read the variable |
| `AtomicOps.SequenceConserves` | Test00/mysql/include/atomic/rwlock.h:53-56 | every sequential history of the locked bodies conserves values |
| `AtomicOps.SequenceSums` | Test00/mysql/include/atomic/rwlock.h:52 | every sequential history of the locked bodies sums up, with what the stores moved, modulo 2^32 |
| `AtomicOps.Variable.Cas` | Test00/mysql/include/atomic/generic-msvc.h:66-69 | the body built on InterlockedCompareExchange is a compare-and-swap |
| `AtomicOps.Variable.LockedCas` | Test00/mysql/include/atomic/rwlock.h:54 | the body under the lock is the same compare-and-swap |
| `AtomicOps.Variable.LockedAdd` | Test00/mysql/include/atomic/rwlock.h:52 | the locked fetch-and-add, with wrap-around, returns the value before |
| `AtomicOps.Variable.LockedFas` | Test00/mysql/include/atomic/rwlock.h:53 | the locked fetch-and-store returns the value before |
| `AtomicOps.Variable.LockedLoad` | Test00/mysql/include/atomic/rwlock.h:55 | the locked load returns the value and changes nothing |
| `AtomicOps.Variable.LockedStore` | Test00/mysql/include/atomic/rwlock.h:56 | the locked store |
| `AtomicOps.Variable.Loop` | Test00/mysql/include/my_atomic.h:65-76 | without interference the loop ends, does what the locked body does and returns the value before |
| `AtomicOps.Variable.LoadOnce` | Test00/mysql/include/my_atomic.h:77-81 | a swap of 0 for 0 reads the variable and leaves it alone |
| `ResultDump.DumpResult` | Test00/xmysql.cpp:781-861 | for every result set whose size fits an int the buffer is exactly the described image, all writes are in bounds, and the final offset is the computed size |
| `ResultDump.ComputeSize` | Test00/xmysql.cpp:786-816 | the first pass computes the size of the image |
| `ResultDump.WriteItems` | Test00/xmysql.cpp:830-857 | offsets and NUL-terminated items written by two cursors form one block, with nothing written before or behind it |
| `ResultDump.WriteRows` | Test00/xmysql.cpp:841-858 | the table of row offsets and the blocks of all rows |
| `ResultDump.WriteNames` | Test00/xmysql.cpp:818-839 | header and field names, with the two offsets first -1 and then known |
| `ResultDump.ImageDescribes` | Test00/xmysql.cpp:818-858 | following the offsets from the header recovers every field name and every value with its terminator |
| `ResultDump.BufferDetermines` | Test00/xmysql.cpp:781-861 | two result sets without NUL bytes and with the same buffer have the same names and values, up to NULL and empty |
| `ResultDump.CStringExact` | Test00/xmysql.cpp:836-856 | a reader who stops at the first NUL gets exactly the item iff it has no NUL inside |
| `ResultDump.RegionsStand` | Test00/xmysql.cpp:818-858 | every region is where it is said to be: the buffer holds its bytes there, and stores its offset in the header or in the table entry that a reader follows |
| `ResultDump.RegionsFill` | Test00/xmysql.cpp:818-858 | every byte of the buffer lies in a region |
| `ResultDump.RegionsAreDisjoint` | Test00/xmysql.cpp:818-858 | these regions, header, offset tables and NUL-terminated items, share no byte |
| `ResultDump.RegionsInOrder` | Test00/xmysql.cpp:818-858 | every region lies inside the buffer and ends before the next begins |
| `ResultDump.IntRoundTrip` | Test00/xmysql.cpp:837 | an int stored as four bytes reads back |
| `ResultDump.EncodedDigits` | Test00/xmysql.cpp:837 | its bytes are its digits to the base 256, least significant first, in two's complement |
| `TrailingSpace.SkipTrailingSpace` | Test00/mysql/include/m_string.h:361-385 | for every content, length and start address the result is that of the byte-by-byte loop, and every read, also of words, stays inside the buffer |
| `TrailingSpace.TrimmedExactly` | Test00/mysql/include/m_string.h:382-384 | the byte-by-byte loop finds the one position with only spaces behind it and no space before it |
| `TrailingSpace.SpaceWord` | Test00/mysql/include/m_string.h:318-323 | a word equals the word of spaces iff its four bytes are spaces |
| `TrailingSpace.WordOfSpaces` | Test00/mysql/include/m_string.h:379-380 | a word of spaces can be dropped at once |

## Left out

- The two float percentages of the statistics; their integer numerators are `|bestRoute|` and `rowsUtilized`.
- All `print` functions, the verbose output, `MZHandler` and `Test00.cpp`: console, database and driver code.
- Probabilities of `rand()`: nothing is said about how likely an outcome is.
- Termination of the retry recursion in `CL::addRandomWall`: any free side may be returned, and that some draw returns is
  taken for granted.
- MazeEngine.MZ.ShiftDown: does not model negative offsets or strings of another length than the matrix, because what
  `CString::Mid` and `CString::Delete` do with the resulting arguments is not part of the repository.
- MazeEngine.MZ.SetMZ: strings hold 8-bit characters, and the narrowing of wide characters in `initializeCLMatrix` is not
  modelled; negative dimensions whose product is the length of the string, which pass `checkMZ`, are excluded, because the
  neighbour functions then take remainders by a negative width.
- MazeEngine.MZ.GenerateMZ: says nothing about `m_nWalls` after the repair step, which does not maintain it; `setMZ` does
  not set it at all.
- Products of dimensions are unbounded integers; the buffer bound keeps them far below the range of an `int`.
- `trie_init`, `trie_insert`, `ac_trie_prepare` and `ac_trie_init`: only declared in the header. What they leave behind is
  stated as `Shaped` and `Prepared`.
- The pointer variants of the atomic operations, which differ from the 32-bit ones in the type alone, and memory ordering:
  reads and swaps of the variable happen one after another.
- The rest of `XMySQL` and `RTimer`: thin wrappers of a client library and of Windows calls. The result set of the dump is
  given as a table of byte strings.
- ResultDump.BufferDetermines: NULL and an empty value are not told apart, because the buffer does not tell them apart.
- The declaration-only MySQL headers and the fixed-width macros.
