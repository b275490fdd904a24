/** What one iteration of the generator does to the maze as a value. */
module Generation {
  import opened Cells
  import opened RowMajor
  import opened MazeGrid
  import opened WallState
  import opened OpenCylinder
  import opened Lattice
  import opened Repair
  import opened RouteSearch
  import opened RouteStatistics

  /** h is g with the absent segment (c, d) added, and both its cells keep at most k walls. */
  ghost predicate Added(g: Grid, h: Grid, c: int, d: int, k: int) {
    && Shape(g) && IsCell(g, c) && 0 <= d < 4
    && Neighbour(g, c, d) != -1 && IsCell(g, Neighbour(g, c, d)) && !Wall(g, c, d)
    && h == AddSegment(g, c, d)
    && h.cells[c].Count() <= k && h.cells[Neighbour(g, c, d)].Count() <= k
  }

  lemma NotAdded(g: Grid, c: int, d: int, k: int)
    ensures !Added(g, g, c, d, k)
  {
    if Shape(g) && IsCell(g, c) && 0 <= d < 4 && IsCell(g, Neighbour(g, c, d)) && !Wall(g, c, d) {
      AddSegmentWalls(g, c, d, c, d);
    }
  }

  lemma FewEnough(g: Grid, c: int, d: Side, k: int)
    requires Shape(g) && IsCell(g, c) && AgreesAt(g, c) && Neighbour(g, c, d) != -1 && !Wall(g, c, d)
    requires g.cells[c].Count() < k
    requires IsCell(g, Neighbour(g, c, d)) && AddSegment(g, c, d).cells[Neighbour(g, c, d)].Count() <= k
    ensures Added(g, AddSegment(g, c, d), c, d, k)
  {
  }

  /** The other cell of the segment is there and would not have too many walls. */
  predicate CanAdd(g: Grid, c: int, d: Side, k: int)
    requires Shape(g) && IsCell(g, c)
  {
    var nb := Neighbour(g, c, d);
    nb != -1 && IsCell(g, nb) && AddSegment(g, c, d).cells[nb].Count() <= k
  }

  /** m is what addRandomWall makes of g when the cell c is drawn, and side d of it if it has fewer
      than k walls (otherwise no side is drawn). */
  ghost predicate Tried(g: Grid, m: Grid, c: int, d: int, k: int) {
    && Shape(g) && IsCell(g, c)
    && if g.cells[c].Count() >= k then d == -1 && m == g
       else 0 <= d < 4 && !Wall(g, c, d) && m == if CanAdd(g, c, d, k) then AddSegment(g, c, d) else g
  }

  predicate AtMost(g: Grid, k: int) {
    forall c :: 0 <= c < |g.cells| ==> g.cells[c].Count() <= k
  }

  /** m_nWalls counts every shared segment once and every edge segment once. */
  predicate Conserved(g: Grid, nWalls: int) {
    TotalWalls(g.cells) == 2 * nWalls - 2 * (g.height - 1)
  }

  /** One added segment keeps the wall-state invariant, the bound and the wall count. */
  lemma AddedKeeps(g: Grid, h: Grid, c: int, d: int, k: int, nWalls: int)
    requires Sound(g) && Added(g, h, c, d, k) && Conserved(g, nWalls)
    ensures Sound(h) && Conserved(h, nWalls + 1)
    ensures AtMost(g, k) ==> AtMost(h, k)
  {
    assert AgreesAt(g, c);
    AddKeepsSound(g, c, d);
    AddSegmentTotal(g, c, d);
  }

  /** Where the generator's first loops put walls: on right-edge cells before cell n other than the
      entrance, and on left-edge cells before cell m other than the exit. */
  ghost predicate FramedUpTo(g: Grid, n: int, m: int)
    requires Shape(g)
  {
    forall c {:trigger g.cells[c]} :: 0 <= c < |g.cells| ==>
      g.cells[c] == Walls(false, IsRightEdge(g, c) && c != g.entrance && c < n,
                          false, IsLeftEdge(g, c) && c != g.exit && c < m)
  }

  lemma {:induction false} NoWalls(cells: seq<Walls>)
    requires forall i :: 0 <= i < |cells| ==> cells[i].Count() == 0
    ensures TotalWalls(cells) == 0
  {
    if cells == [] {
    } else {
      NoWalls(cells[..|cells| - 1]);
    }
  }

  /** No row starts strictly between two consecutive row starts. */
  lemma NoneBetween(w: int, j: int, y: int)
    requires w >= 1
    ensures y * w <= j * w || y * w >= (j + 1) * w
  {
    if y <= j { MulLe(y, j, w); } else { MulLe(j + 1, y, w); }
  }

  /** Between two right-edge cells of consecutive rows there is no other right-edge cell. */
  lemma NextRightEdge(g: Grid, j: int)
    requires Shape(g) && 0 <= j < g.height
    ensures var i := At(g, g.width - 1, j);
            && IsCell(g, i) && IsRightEdge(g, i)
            && (forall c :: i < c < i + g.width && IsCell(g, c) ==> !IsRightEdge(g, c))
  {
    var i := At(g, g.width - 1, j);
    AtIsCell(g, g.width - 1, j);
    EdgeAt(g, g.width - 1, j);
    forall c | i < c < i + g.width && IsCell(g, c) ensures !IsRightEdge(g, c) {
      CellAt(g, c);
      EdgeAt(g, c % g.width, c / g.width);
      NoneBetween(g.width, j, c / g.width);
    }
  }

  /** Between two left-edge cells of consecutive rows there is no other left-edge cell. */
  lemma NextLeftEdge(g: Grid, j: int)
    requires Shape(g) && 0 <= j < g.height
    ensures var i := At(g, 0, j);
            && IsCell(g, i) && IsLeftEdge(g, i)
            && (forall c :: i < c < i + g.width && IsCell(g, c) ==> !IsLeftEdge(g, c))
  {
    var i := At(g, 0, j);
    AtIsCell(g, 0, j);
    EdgeAt(g, 0, j);
    forall c | i < c < i + g.width && IsCell(g, c) ensures !IsLeftEdge(g, c) {
      CellAt(g, c);
      EdgeAt(g, c % g.width, c / g.width);
      NoneBetween(g.width, j, c / g.width);
    }
  }

  /** Before the first right-edge cell there is none. */
  lemma FirstRightEdge(g: Grid)
    requires Shape(g)
    ensures forall c :: 0 <= c < g.width - 1 ==> !IsRightEdge(g, c)
  {
    forall c | 0 <= c < g.width - 1 ensures !IsRightEdge(g, c) {
      Number(g.width, c + 1, 0);
    }
  }

  /** One turn of the entrance loop: cell i ends row j; it gets its right wall unless it is the
      entrance, and the next turn is at the end of row j + 1. */
  lemma FrameRight(g: Grid, j: int, i: int)
    requires Shape(g) && 0 <= j < g.height && i == At(g, g.width - 1, j) && FramedUpTo(g, i, 0)
    ensures IsCell(g, i) && !g.cells[i].Has(1)
    ensures var h := if i == g.entrance then g else g.(cells := g.cells[i := g.cells[i].Set(1, true)]);
            FramedUpTo(h, i + g.width, 0) && TotalWalls(h.cells) == TotalWalls(g.cells) + Flag(i != g.entrance)
  {
    NextRightEdge(g, j);
    TotalUpdate(g.cells, i, g.cells[i].Set(1, true));
    var h := if i == g.entrance then g else g.(cells := g.cells[i := g.cells[i].Set(1, true)]);
    forall c | IsCell(g, c) ensures IsRightEdge(h, c) == IsRightEdge(g, c) && IsLeftEdge(h, c) == IsLeftEdge(g, c) {
    }
  }

  /** One turn of the exit loop: cell i starts row j. */
  lemma FrameLeft(g: Grid, j: int, i: int)
    requires Shape(g) && 0 <= j < g.height && i == At(g, 0, j) && FramedUpTo(g, |g.cells|, i)
    ensures IsCell(g, i) && !g.cells[i].Has(3)
    ensures var h := if i == g.exit then g else g.(cells := g.cells[i := g.cells[i].Set(3, true)]);
            FramedUpTo(h, |g.cells|, i + g.width) && TotalWalls(h.cells) == TotalWalls(g.cells) + Flag(i != g.exit)
  {
    NextLeftEdge(g, j);
    TotalUpdate(g.cells, i, g.cells[i].Set(3, true));
    var h := if i == g.exit then g else g.(cells := g.cells[i := g.cells[i].Set(3, true)]);
    forall c | IsCell(g, c) ensures IsRightEdge(h, c) == IsRightEdge(g, c) && IsLeftEdge(h, c) == IsLeftEdge(g, c) {
    }
  }

  lemma FrameRightStarts(g: Grid, entrance: int)
    requires Shape(g) && FramedUpTo(g, 0, 0)
    ensures FramedUpTo(g.(entrance := entrance), g.width - 1, 0)
  {
    var h := g.(entrance := entrance);
    FirstRightEdge(h);
    forall c | IsCell(g, c) ensures h.cells[c] == Walls(false, false, false, false) {
      assert IsRightEdge(g, c) || !IsRightEdge(g, c);
    }
  }

  lemma FrameLeftStarts(g: Grid, exit: int)
    requires Shape(g) && FramedUpTo(g, |g.cells|, 0)
    ensures FramedUpTo(g.(exit := exit), |g.cells|, 0)
  {
    forall c | IsCell(g, c) ensures IsRightEdge(g.(exit := exit), c) == IsRightEdge(g, c) {
    }
  }

  predicate StartsRow(w: int, i: int, j: int) {
    i == j * w
  }

  predicate EndsRow(w: int, i: int, j: int) {
    i == j * w + (w - 1)
  }

  lemma FirstRow(w: int)
    ensures StartsRow(w, 0, 0) && EndsRow(w, w - 1, 0)
  {
  }

  /** The edge loops go from row to row, and pass the last cell after the last row. */
  lemma EdgeLoopGoesOn(g: Grid, i: int, j: int)
    requires Shape(g) && 0 <= j <= g.height && (StartsRow(g.width, i, j) || EndsRow(g.width, i, j))
    ensures i < |g.cells| <==> j < g.height
    ensures StartsRow(g.width, i, j) ==> StartsRow(g.width, i + g.width, j + 1)
    ensures EndsRow(g.width, i, j) ==> EndsRow(g.width, i + g.width, j + 1)
  {
    if j < g.height {
      AtIsCell(g, 0, j);
      AtIsCell(g, g.width - 1, j);
    }
  }

  /** All cells are behind a loop that has passed the last one. */
  lemma FrameEnds(g: Grid, n: int, m: int)
    requires Shape(g) && FramedUpTo(g, n, m)
    ensures n >= |g.cells| ==> FramedUpTo(g, |g.cells|, m)
    ensures m >= |g.cells| ==> FramedUpTo(g, n, |g.cells|)
  {
  }

  /** The maze both edge loops leave is where the generator starts: sound, everything reachable,
      at most one wall for each cell when there are two columns, and every wall counted. */
  lemma FrameIsStart(g: Grid, nWalls: int)
    requires Shape(g) && FramedUpTo(g, |g.cells|, |g.cells|)
    requires IsCell(g, g.entrance) && IsRightEdge(g, g.entrance)
    requires IsCell(g, g.exit) && IsLeftEdge(g, g.exit)
    requires nWalls == 2 * (g.height - 1) == TotalWalls(g.cells)
    ensures Sound(g) && Unobstructed(g) && AllReachable(g) && Conserved(g, nWalls)
    ensures g.width >= 2 ==> AtMost(g, 1)
  {
    assert Unobstructed(g) by {
      forall c | IsCell(g, c)
        ensures !Wall(g, c, 0) && !Wall(g, c, 2)
        ensures Wall(g, c, 1) <==> IsRightEdge(g, c) && c != g.entrance
        ensures Wall(g, c, 3) <==> IsLeftEdge(g, c) && c != g.exit
      {
        assert g.cells[c] == Walls(false, IsRightEdge(g, c) && c != g.entrance,
                                   false, IsLeftEdge(g, c) && c != g.exit);
      }
    }
    UnobstructedIsSound(g);
    StartsOpen(g);
  }

  /** The wall-free matrix the generator makes first. */
  lemma NothingFramed(g: Grid)
    requires Shape(g) && forall c :: 0 <= c < |g.cells| ==> g.cells[c] == Walls(false, false, false, false)
    ensures FramedUpTo(g, 0, 0) && TotalWalls(g.cells) == 0
  {
    NoWalls(g.cells);
    forall c | 0 <= c < |g.cells| ensures IsRightEdge(g, c) || !IsRightEdge(g, c) {
    }
  }

  /** A cell that keeps to a bound keeps to every greater one. */
  lemma AtMostMore(g: Grid, k: int, n: int)
    requires AtMost(g, k) && k <= n
    ensures AtMost(g, n)
  {
  }

  /** The maze the generator returns: every cell reachable, at most three walls for each cell when
      there are two columns, bare lattice points in row 0 only, and a best route. */
  ghost predicate Finished(g: Grid) {
    && Sound(g) && AllReachable(g) && AllPointsWalled(g, 1)
    && (g.width >= 2 ==> AtMost(g, 3) && Solved(g))
  }

  /** There is a best route; every opposing step on it costs two cells more. */
  ghost predicate Solved(g: Grid)
    requires Shape(g) && IsCell(g, g.entrance)
  {
    Bfs(g).best != [] && |Bfs(g).best| >= g.width + 2 * OpposingSteps(g, Bfs(g).best)
  }

  lemma ReachableIsSolved(g: Grid)
    requires Sound(g) && AllReachable(g) && g.width >= 2
    ensures Solved(g)
  {
    CellAt(g, g.entrance);
    EdgeAt(g, g.entrance % g.width, g.entrance / g.width);
    assert g.exit != g.entrance;
    BestRouteIsShortest(g);
    BestRouteLength(g);
  }

  lemma FinishedWithoutRepair(g: Grid)
    requires Sound(g) && AllReachable(g) && Least(Intersections(g)) != 0
    requires g.width >= 2 ==> AtMost(g, 3)
    ensures Finished(g)
  {
    LeastIsPositive(g);
    if g.width >= 2 { ReachableIsSolved(g); }
  }

  lemma FinishedByRepair(g: Grid)
    requires Sound(g) && AllReachable(g)
    requires g.width >= 2 ==> AtMost(g, 3)
    ensures Finished(Repaired(g))
  {
    RepairKeepsSound(g);
    RepairKeepsReachable(g);
    RepairLeaves(g);
    if g.width >= 2 { ReachableIsSolved(Repaired(g)); }
  }

  /** The maze that the last step of the generator makes. */
  ghost function LastStep(g: Grid): (h: Grid)
    requires Sound(g)
    ensures Shape(h) && h == g.(cells := h.cells)
  {
    if Least(Intersections(g)) == 0 then Repaired(g) else g
  }

  /** Exactly when a lattice point of the finished maze is still bare. */
  lemma LeastAtTheEnd(g: Grid)
    requires Sound(g)
    ensures Least(Intersections(LastStep(g))) == 0 <==> SomeStaysBare(g)
  {
    if Least(Intersections(g)) == 0 {
      RepairedLeast(g);
    } else {
      LeastIsPositive(g);
    }
  }

  /** One turn of a generator loop: try a wall, and take it back unless everything is reachable. */
  ghost predicate Turn(g: Grid, h: Grid, k: int) {
    exists m, c, d :: Tried(g, m, c, d, k) && h == if Shape(m) && AllReachable(m) then m else g
  }

  lemma TurnIs(g: Grid, m: Grid, h: Grid, c: int, d: int, k: int)
    requires Tried(g, m, c, d, k) && Shape(m) && h == if AllReachable(m) then m else g
    ensures Turn(g, h, k) && (h == g.(cells := h.cells))
  {
    hide AllReachable;
  }

  /** A turn that changes the maze adds one segment and leaves everything reachable. */
  lemma TurnAdds(g: Grid, h: Grid, k: int) returns (c: int, d: int)
    requires Sound(g) && Turn(g, h, k)
    ensures h == g || (Shape(h) && AllReachable(h) && Added(g, h, c, d, k))
  {
    hide AllReachable;
    var m;
    m, c, d :| Tried(g, m, c, d, k) && h == if Shape(m) && AllReachable(m) then m else g;
    if h != g {
      assert AgreesAt(g, c);
      FewEnough(g, c, d, k);
    }
  }

  /** h is what n turns can make of g. */
  ghost predicate Leads(g: Grid, h: Grid, k: int, n: nat)
    decreases n
  {
    if n == 0 then h == g else exists m :: Leads(g, m, k, n - 1) && Turn(m, h, k)
  }

  /** h is what the three loops make of g; each makes half as many turns as there are cells. */
  ghost predicate Grown(g: Grid, h: Grid) {
    exists one, two ::
      Leads(g, one, 1, |g.cells| / 2) && Leads(one, two, 2, |g.cells| / 2) && Leads(two, h, 3, |g.cells| / 2)
  }

  lemma GrownBy(g: Grid, one: Grid, two: Grid, h: Grid)
    requires var n := |g.cells| / 2; Leads(g, one, 1, n) && Leads(one, two, 2, n) && Leads(two, h, 3, n)
    ensures Grown(g, h)
  {
  }

  ghost predicate KeepsWalls(g: Grid, h: Grid) {
    && |g.cells| == |h.cells|
    && forall c, d: Side {:trigger Wall(h, c, d)} :: IsCell(g, c) && Wall(g, c, d) ==> Wall(h, c, d)
  }

  /** Whatever the turns were: the maze stays sound, every cell reachable, no wall is lost, at most
      one segment is gained for each turn, and the bound of the loop is kept. */
  lemma {:induction false} TurnsKeep(g: Grid, h: Grid, k: int, n: nat)
    requires Sound(g) && AllReachable(g) && Leads(g, h, k, n)
    ensures Sound(h) && AllReachable(h) && h == g.(cells := h.cells) && |h.cells| == |g.cells|
    ensures KeepsWalls(g, h)
    ensures exists m: nat :: m <= n && TotalWalls(h.cells) == TotalWalls(g.cells) + 2 * m
    ensures AtMost(g, k) ==> AtMost(h, k)
    decreases n
  {
    hide Sound, AllReachable, AtMost, Turn;
    if n == 0 {
      assert TotalWalls(h.cells) == TotalWalls(g.cells) + 2 * 0;
    } else {
      var p :| Leads(g, p, k, n - 1) && Turn(p, h, k);
      TurnsKeep(g, p, k, n - 1);
      TurnReaches(p, h, k);
      var m: nat :| m <= n - 1 && TotalWalls(p.cells) == TotalWalls(g.cells) + 2 * m;
      TurnKeeps(p, h, k);
      assert TotalWalls(h.cells) == TotalWalls(g.cells) + 2 * (if h == p then m else m + 1);
    }
  }

  lemma TurnReaches(g: Grid, h: Grid, k: int)
    requires Sound(g) && AllReachable(g) && Turn(g, h, k)
    ensures Shape(h) && AllReachable(h)
  {
    hide AllReachable;
    var c, d := TurnAdds(g, h, k);
  }

  lemma TurnKeeps(g: Grid, h: Grid, k: int)
    requires Sound(g) && Turn(g, h, k)
    ensures Sound(h) && h == g.(cells := h.cells) && |h.cells| == |g.cells|
    ensures KeepsWalls(g, h)
    ensures TotalWalls(h.cells) == TotalWalls(g.cells) + if h == g then 0 else 2
    ensures AtMost(g, k) ==> AtMost(h, k)
  {
    hide Turn, AllReachable;
    var c, d := TurnAdds(g, h, k);
    if h != g {
      assert AgreesAt(g, c);
      hide AgreesAt, BoundaryWalled, Neighbour;
      AddKeepsSound(g, c, d);
      AddSegmentTotal(g, c, d);
      forall x, e: Side | IsCell(g, x) && Wall(g, x, e) ensures Wall(h, x, e) {
        AddSegmentWalls(g, c, d, x, e);
      }
    }
  }

  lemma LeadsOn(g: Grid, m: Grid, h: Grid, k: int, n: nat)
    requires Leads(g, m, k, n) && Turn(m, h, k)
    ensures Leads(g, h, k, n + 1)
  {
  }

  /** Every run of the generator, whatever rand() returned: whoever is reached by it is sound, fully
      connected and, with two columns or more, keeps the bound of each loop; no wall is ever lost;
      and the last step finishes it. */
  lemma EveryRun(g: Grid, h: Grid)
    requires Sound(g) && Unobstructed(g) && Grown(g, h)
    ensures Sound(h) && AllReachable(h) && KeepsWalls(g, h) && (g.width >= 2 ==> AtMost(h, 3))
    ensures Finished(LastStep(h)) && (Least(Intersections(LastStep(h))) == 0 <==> SomeStaysBare(h))
  {
    hide EdgesAgree, BoundaryWalled, AllReachable, Leads, Finished, AtMost, Intersections, Unobstructed;
    var one, two :|
      Leads(g, one, 1, |g.cells| / 2) && Leads(one, two, 2, |g.cells| / 2) && Leads(two, h, 3, |g.cells| / 2);
    StartsOpen(g);
    TurnsKeep(g, one, 1, |g.cells| / 2);
    TurnsKeep(one, two, 2, |g.cells| / 2);
    TurnsKeep(two, h, 3, |g.cells| / 2);
    if g.width >= 2 {
      AtMostMore(one, 1, 2);
      AtMostMore(two, 2, 3);
    }
    if Least(Intersections(h)) == 0 { FinishedByRepair(h); } else { FinishedWithoutRepair(h); }
    LeastAtTheEnd(h);
  }

  lemma StartsOpen(g: Grid)
    requires Sound(g) && Unobstructed(g)
    ensures AllReachable(g) && (g.width >= 2 ==> AtMost(g, 1))
  {
    UnobstructedIsReachable(g);
    if g.width >= 2 {
      forall c | 0 <= c < |g.cells| ensures g.cells[c].Count() <= 1 {
        CellAt(g, c);
        EdgeAt(g, c % g.width, c / g.width);
        assert !Wall(g, c, 0) && !Wall(g, c, 2);
        assert Wall(g, c, 1) == g.cells[c].right && Wall(g, c, 3) == g.cells[c].left;
      }
    }
  }

  /** Two cells side by side, the entrance right and the exit left. */
  function TwoCells(): Grid {
    Grid(2, 1, 1, 0, [Walls(false, false, false, false), Walls(false, false, false, false)])
  }

  lemma TwoCellsStart()
    ensures Sound(TwoCells()) && Unobstructed(TwoCells())
  {
    UnobstructedIsSound(TwoCells());
  }

  lemma TwoCellsBare()
    ensures SomeStaysBare(TwoCells())
  {
    assert StaysBare(TwoCells(), 0);
  }

  /** Every draw may be a side that looks outside. */
  lemma TwoCellsTurn(k: int)
    requires k >= 1
    ensures Turn(TwoCells(), TwoCells(), k)
  {
    var g := TwoCells();
    assert Neighbour(g, 1, 1) == -1;
    assert Tried(g, g, 1, 1, k);
  }

  lemma LeadsNowhere(g: Grid, k: int)
    requires Turn(g, g, k)
    ensures Leads(g, g, k, 1)
  {
    assert Leads(g, g, k, 0);
  }

  /** So the program's test for a least number above 0 is needed: a run of the generator on these two
      cells can end with a bare lattice point. */
  lemma GeneratorMayLeaveBare()
    ensures Sound(TwoCells()) && Unobstructed(TwoCells()) && Grown(TwoCells(), TwoCells())
    ensures Least(Intersections(LastStep(TwoCells()))) == 0
  {
    var g := TwoCells();
    TwoCellsStart();
    TwoCellsBare();
    TwoCellsTurn(1);
    TwoCellsTurn(2);
    TwoCellsTurn(3);
    hide TwoCells, Turn, Sound, Unobstructed, SomeStaysBare, Intersections, LastStep;
    LeadsNowhere(g, 1);
    LeadsNowhere(g, 2);
    LeadsNowhere(g, 3);
    hide Leads;
    LeastAtTheEnd(g);
    assert |g.cells| / 2 == 1;
    GrownBy(g, g, g, g);
  }
}
