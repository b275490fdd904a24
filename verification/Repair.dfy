/** The repair step (fillWalllessCells): it walls off every lattice point without walls below
    row 0 in one sweep, re-checks nothing, and still leaves every cell reachable. */
module Repair {
  import opened Cells
  import opened MazeGrid
  import opened WallState
  import opened Lattice

  ghost predicate Interior(g: Grid, ps: seq<int>)
    requires Shape(g)
  {
    forall i :: 0 <= i < |ps| ==> IsCell(g, ps[i]) && !IsRightEdge(g, ps[i]) && IsCell(g, ps[i] + 1)
  }

  /** The maze with the right walls of the given cells added, each on both sides. */
  ghost function Filled(g: Grid, ps: seq<int>): (h: Grid)
    requires Shape(g)
    ensures Shape(h) && h == g.(cells := h.cells) && |h.cells| == |g.cells|
  {
    g.(cells := seq(|g.cells|, c requires 0 <= c < |g.cells| =>
      g.cells[c].(right := g.cells[c].right || c in ps, left := g.cells[c].left || c - 1 in ps)))
  }

  /** One round of the repair loop: the next cell's right wall, on both sides. */
  lemma FillOne(g: Grid, ps: seq<int>, p: int)
    requires Shape(g) && IsCell(g, p) && !IsRightEdge(g, p) && IsCell(g, p + 1)
    ensures Neighbour(Filled(g, ps), p, 1) == p + 1
    ensures Filled(g, ps + [p]) == AddSegment(Filled(g, ps), p, 1)
  {
    var h, h' := Filled(g, ps), Filled(g, ps + [p]);
    assert IsRightEdge(h, p) == IsRightEdge(g, p);
    forall c | 0 <= c < |g.cells| ensures h'.cells[c] == AddSegment(h, p, 1).cells[c] {
    }
    assert h'.cells == AddSegment(h, p, 1).cells;
  }

  lemma ProblemsInterior(g: Grid)
    requires Sound(g)
    ensures Interior(g, Problems(g))
  {
    forall i | 0 <= i < |Problems(g)|
      ensures IsCell(g, Problems(g)[i]) && !IsRightEdge(g, Problems(g)[i]) && IsCell(g, Problems(g)[i] + 1)
    {
      ProblemsExact(g, Problems(g)[i]);
      NeighbourInvolution(g, Problems(g)[i], 1);
    }
  }

  /** The maze after the repair step. */
  ghost function Repaired(g: Grid): (h: Grid)
    requires Sound(g)
    ensures Shape(h) && h == g.(cells := h.cells) && |h.cells| == |g.cells|
  {
    Filled(g, Problems(g))
  }

  /** Exactly the right walls of the problem cells appear, on both sides. */
  lemma RepairedWalls(g: Grid, x: int, e: Side)
    requires Sound(g) && IsCell(g, x)
    ensures Wall(Repaired(g), x, e) <==>
              Wall(g, x, e) || (e == 1 && IsProblem(g, x)) || (e == 3 && IsProblem(g, x - 1))
  {
    ProblemsExact(g, x);
    ProblemsExact(g, x - 1);
  }

  lemma {:induction false} FilledSound(g: Grid, ps: seq<int>)
    requires Sound(g) && Interior(g, ps)
    ensures Sound(Filled(g, ps))
  {
    if ps == [] {
      assert Filled(g, ps).cells == g.cells;
    } else {
      var n := |ps| - 1;
      FilledSound(g, ps[..n]);
      FillOne(g, ps[..n], ps[n]);
      assert ps == ps[..n] + [ps[n]];
      AddKeepsSound(Filled(g, ps[..n]), ps[n], 1);
    }
  }

  lemma FilledNone(g: Grid)
    requires Shape(g)
    ensures Filled(g, []) == g
  {
    assert Filled(g, []).cells == g.cells;
  }

  /** The turn of listed cell number i: its right wall is still absent, and so is the left wall
      across, because no cell is listed twice. */
  lemma FillNext(g: Grid, i: int)
    requires Sound(g) && 0 <= i < |Problems(g)|
    ensures var ps := Problems(g);
            var p, k := ps[i], Filled(g, ps[..i]);
            && IsCell(g, p) && IsCell(g, p + 1)
            && !k.cells[p].Has(1) && !k.cells[p + 1].Has(3)
            && Neighbour(k, p, 1) == p + 1
            && Filled(g, ps[..i] + [p])
               == k.(cells := k.cells[p := k.cells[p].Set(1, true)][p + 1 := k.cells[p + 1].Set(3, true)])
  {
    var ps := Problems(g);
    var p := ps[i];
    ProblemsInterior(g);
    ProblemsIncrease(g);
    ProblemsExact(g, p);
    assert p !in ps[..i];
    ProblemOpen(g, p);
    FillOne(g, ps[..i], p);
  }

  /** The segment above a lattice point without segments is absent. */
  lemma ProblemOpen(g: Grid, p: int)
    requires Sound(g) && IsProblem(g, p)
    ensures IsCell(g, p + 1) && !Wall(g, p, 1) && !Wall(g, p + 1, 3)
  {
    CellAt(g, p);
    var x, y := p % g.width, p / g.width;
    NeighbourAt(g, x, y);
    assert !Upright(g, x + 1, y);
    assert AgreesAt(g, p) && AgreesOn(g, p, 1);
  }

  // ----- The detour round a vertical chain of bare lattice points -----

  /** The lattice point (x, y) is on the list: the cells left and right of the segment above it
      get a wall between them. */
  predicate Bare(g: Grid, x: int, y: int)
    requires Shape(g)
  {
    1 <= x < g.width && 1 <= y < g.height && Degree(g, x, y) == 0
  }

  lemma BareIsProblem(g: Grid, x: int, y: int)
    requires Shape(g) && 1 <= x < g.width && 0 <= y < g.height
    ensures IsProblem(g, At(g, x - 1, y)) <==> Bare(g, x, y + 1)
  {
    AtIsCell(g, x - 1, y);
    EdgeAt(g, x - 1, y);
  }

  /** Level passages are untouched by the repair: both cells left of a bare point stay joined,
      and so do both cells right of it. */
  lemma SidesOpen(g: Grid, x: int, y: int)
    requires Sound(g) && Bare(g, x, y)
    ensures forall k :: x - 1 <= k <= x ==>
              && IsCell(g, At(g, k, y)) && IsCell(g, At(g, k, y - 1))
              && Reaches(Repaired(g), At(g, k, y), At(g, k, y - 1))
              && Reaches(Repaired(g), At(g, k, y - 1), At(g, k, y))
  {
    var h := Repaired(g);
    forall k | x - 1 <= k <= x
      ensures IsCell(g, At(g, k, y)) && IsCell(g, At(g, k, y - 1))
      ensures Reaches(h, At(g, k, y), At(g, k, y - 1)) && Reaches(h, At(g, k, y - 1), At(g, k, y))
    {
      var a, b := At(g, k, y), At(g, k, y - 1);
      NeighbourAt(g, k, y);
      NeighbourAt(g, k, y - 1);
      assert !Level(g, k, y);
      assert AgreesAt(g, a) && AgreesOn(g, a, 0);
      RepairedWalls(g, a, 0);
      RepairedWalls(g, b, 2);
      assert Neighbour(h, a, 0) == b && Neighbour(h, b, 2) == a;
      StepReaches(h, a, 0);
      StepReaches(h, b, 2);
    }
  }

  /** Between the cells left and right of an open segment below a point not on the list. */
  lemma AcrossOpen(g: Grid, x: int, y: int)
    requires Sound(g) && 1 <= x < g.width && 0 <= y < g.height
    requires !Upright(g, x, y) && !Bare(g, x, y + 1)
    ensures Reaches(Repaired(g), At(g, x - 1, y), At(g, x, y))
    ensures Reaches(Repaired(g), At(g, x, y), At(g, x - 1, y))
  {
    var h := Repaired(g);
    var a, b := At(g, x - 1, y), At(g, x, y);
    NeighbourAt(g, x - 1, y);
    NeighbourAt(g, x, y);
    EdgeAt(g, x - 1, y);
    EdgeAt(g, x, y);
    BareIsProblem(g, x, y);
    assert AgreesAt(g, b) && AgreesOn(g, b, 3);
    RepairedWalls(g, a, 1);
    RepairedWalls(g, b, 3);
    assert Neighbour(h, a, 1) == b && Neighbour(h, b, 3) == a;
    assert IsRightEdge(g, g.entrance) && IsLeftEdge(g, g.exit);
    StepReaches(h, a, 1);
    StepReaches(h, b, 3);
  }

  /** The cells on both sides of a repaired segment stay joined: down on the left, across below,
      up on the right. Across below is open, or is itself repaired one row further down; row 0 is
      never on the list, so the chain ends. */
  lemma {:induction false} Detour(g: Grid, x: int, y: int)
    requires Sound(g) && Bare(g, x, y)
    ensures Reaches(Repaired(g), At(g, x - 1, y - 1), At(g, x, y - 1))
    ensures Reaches(Repaired(g), At(g, x, y - 1), At(g, x - 1, y - 1))
    decreases g.height - y
  {
    var h := Repaired(g);
    SidesOpen(g, x, y);
    if Bare(g, x, y + 1) {
      Detour(g, x, y + 1);
    } else {
      assert !Upright(g, x, y);
      AcrossOpen(g, x, y);
    }
    var a, b, c, d := At(g, x - 1, y - 1), At(g, x - 1, y), At(g, x, y), At(g, x, y - 1);
    ReachesTransitive(h, a, b, c);
    ReachesTransitive(h, a, c, d);
    ReachesTransitive(h, d, c, b);
    ReachesTransitive(h, d, b, a);
  }

  /** Every step of the maze before the repair can still be walked after it. */
  lemma StepSurvives(g: Grid, a: int, d: Side)
    requires Sound(g) && IsCell(g, a) && CanStep(g, a, d)
    ensures Reaches(Repaired(g), a, Neighbour(g, a, d))
  {
    var h := Repaired(g);
    var b := Neighbour(g, a, d);
    NeighbourInvolution(g, a, d);
    RepairedWalls(g, a, d);
    assert Neighbour(h, a, d) == b;
    if !Wall(h, a, d) {
      StepReaches(h, a, d);
    } else {
      var p := if d == 1 then a else b;
      CellAt(g, p);
      var x, y := p % g.width + 1, p / g.width + 1;
      assert p == At(g, x - 1, y - 1) && p + 1 == At(g, x, y - 1);
      Detour(g, x, y);
    }
  }

  /** The repair step keeps every cell reachable, although it checks nothing. */
  lemma RepairKeepsReachable(g: Grid)
    requires Sound(g) && AllReachable(g)
    ensures AllReachable(Repaired(g))
  {
    var h := Repaired(g);
    forall a, b | IsCell(g, a) && Step(g, a, b) ensures Reaches(h, a, b) {
      var d: Side :| CanStep(g, a, d) && Neighbour(g, a, d) == b;
      StepSurvives(g, a, d);
    }
    forall c | IsCell(h, c) ensures Reaches(h, h.entrance, c) {
      assert Reaches(g, g.entrance, c);
      var p :| Joins(g, p, g.entrance, c);
      StepwiseReaches(g, h, p);
    }
  }

  lemma RepairKeepsSound(g: Grid)
    requires Sound(g)
    ensures Sound(Repaired(g))
  {
    ProblemsInterior(g);
    FilledSound(g, Problems(g));
  }

  /** A cell that gains walls keeps its floor open, so no cell is walled in on all four sides. */
  lemma RepairedCount(g: Grid, c: int)
    requires Sound(g) && IsCell(g, c) && g.cells[c].Count() <= 3
    ensures Repaired(g).cells[c].Count() <= 3
  {
    var h := Repaired(g);
    RepairedWalls(g, c, 0);
    RepairedWalls(g, c, 1);
    RepairedWalls(g, c, 2);
    RepairedWalls(g, c, 3);
    if IsProblem(g, c) || IsProblem(g, c - 1) {
      ProblemFloorOpen(g, c);
      assert !h.cells[c].Has(2);
    } else {
      assert h.cells[c] == g.cells[c];
    }
  }

  lemma ProblemFloorOpen(g: Grid, c: int)
    requires Sound(g) && IsCell(g, c) && (IsProblem(g, c) || IsProblem(g, c - 1))
    ensures !Wall(g, c, 2)
  {
    var p := if IsProblem(g, c) then c else c - 1;
    CellAt(g, p);
    var x, y := p % g.width + 1, p / g.width + 1;
    var k := if p == c then x - 1 else x;
    assert c == At(g, k, y - 1);
    NeighbourAt(g, k, y - 1);
    assert !Level(g, k, y);
    assert AgreesAt(g, c) && AgreesOn(g, c, 2);
  }

  /** After the repair a lattice point without walls can only lie in row 0. */
  lemma RepairedDegrees(g: Grid, x: int, y: int)
    requires Sound(g) && 0 <= x <= g.width && 1 <= y < g.height
    ensures Degree(Repaired(g), x, y) > 0
  {
    var h := Repaired(g);
    if x == 0 || x == g.width {
      RepairKeepsSound(g);
      EdgePointsWalled(h, x, y);
    } else {
      BareIsProblem(g, x, y - 1);
      AtIsCell(g, x - 1, y);
      AtIsCell(g, x, y);
      AtIsCell(g, x, y - 1);
      RepairedWalls(g, At(g, x, y - 1), 3);
      RepairedWalls(g, At(g, x, y), 3);
      RepairedWalls(g, At(g, x - 1, y), 0);
      RepairedWalls(g, At(g, x, y), 0);
    }
  }

  /** What the repair step leaves: at most three walls for each cell if there were no more before,
      and no bare lattice point below row 0. */
  lemma RepairLeaves(g: Grid)
    requires Sound(g)
    ensures AllPointsWalled(Repaired(g), 1)
    ensures (forall c :: 0 <= c < |g.cells| ==> g.cells[c].Count() <= 3) ==>
              forall c :: 0 <= c < |g.cells| ==> Repaired(g).cells[c].Count() <= 3
  {
    forall x, y | 0 <= x <= g.width && 1 <= y < g.height ensures Degree(Repaired(g), x, y) > 0 {
      RepairedDegrees(g, x, y);
    }
    forall c | 0 <= c < |g.cells| && g.cells[c].Count() <= 3 ensures Repaired(g).cells[c].Count() <= 3 {
      RepairedCount(g, c);
    }
  }

  /** The lattice point (x, 0) stays without walls: the segment below it is not one of those that
      the repair adds. */
  predicate StaysBare(g: Grid, x: int)
    requires Shape(g) && 0 <= x <= g.width
  {
    Degree(g, x, 0) == 0 && !(g.height >= 2 && Bare(g, x, 1))
  }

  /** In row 0 exactly those points are bare after the repair. */
  lemma RepairedTop(g: Grid, x: int)
    requires Sound(g) && 0 <= x <= g.width
    ensures Degree(Repaired(g), x, 0) == 0 <==> StaysBare(g, x)
  {
    var h := Repaired(g);
    var up := RowAbove(g, 0);
    if x < g.width {
      AtIsCell(g, x, 0);
      RepairedWalls(g, At(g, x, 0), 0);
    }
    if x > 0 {
      AtIsCell(g, x - 1, 0);
      RepairedWalls(g, At(g, x - 1, 0), 0);
    }
    hide Upright, Repaired;
    RepairedUpright(g, x, 0);
    RepairedUpright(g, x, up);
  }

  /** A segment beside a cell appears iff the point below it was bare. */
  lemma RepairedUpright(g: Grid, x: int, r: int)
    requires Sound(g) && 0 <= x <= g.width && 0 <= r < g.height
    ensures Upright(Repaired(g), x, r) <==> Upright(g, x, r) || Bare(g, x, r + 1)
  {
    if x == g.width {
      AtIsCell(g, x - 1, r);
      EdgeAt(g, x - 1, r);
      RepairedWalls(g, At(g, x - 1, r), 1);
    } else {
      AtIsCell(g, x, r);
      EdgeAt(g, x, r);
      RepairedWalls(g, At(g, x, r), 3);
      if x > 0 {
        BareIsProblem(g, x, r);
      } else if r > 0 {
        AtIsCell(g, g.width - 1, r - 1);
        EdgeAt(g, g.width - 1, r - 1);
      }
    }
  }

  ghost predicate SomeStaysBare(g: Grid)
    requires Shape(g)
  {
    exists x {:trigger StaysBare(g, x)} :: 0 <= x <= g.width && StaysBare(g, x)
  }

  /** After the repair the least number of segments at a lattice point is 0 exactly then. */
  lemma RepairedLeast(g: Grid)
    requires Sound(g)
    ensures Least(Intersections(Repaired(g))) == 0 <==> SomeStaysBare(g)
  {
    hide Intersections, Repaired, StaysBare, Upright, Level;
    var h := Repaired(g);
    LeastIsPositive(h);
    forall x | 0 <= x <= g.width ensures Degree(h, x, 0) == 0 <==> StaysBare(g, x) {
      RepairedTop(g, x);
    }
    RepairLeaves(g);
  }
}
