/** The maze the generator starts from: the two straight edges walled, nothing inside. */
module OpenCylinder {
  import opened Cells
  import opened MazeGrid
  import opened WallState

  /** No cell has a top or bottom wall, and only edge cells have side walls. */
  ghost predicate Unobstructed(g: Grid)
    requires Shape(g)
  {
    forall c :: IsCell(g, c) ==>
      && !Wall(g, c, 0) && !Wall(g, c, 2)
      && (Wall(g, c, 1) <==> IsRightEdge(g, c) && c != g.entrance)
      && (Wall(g, c, 3) <==> IsLeftEdge(g, c) && c != g.exit)
  }

  lemma UnobstructedIsSound(g: Grid)
    requires Shape(g) && Unobstructed(g)
    requires IsCell(g, g.entrance) && IsRightEdge(g, g.entrance)
    requires IsCell(g, g.exit) && IsLeftEdge(g, g.exit)
    ensures Sound(g)
  {
    forall c | IsCell(g, c) ensures AgreesAt(g, c) {
      forall d: Side ensures AgreesOn(g, c, d) {
        if Neighbour(g, c, d) != -1 { NeighbourInvolution(g, c, d); }
      }
    }
  }

  lemma {:induction false} UpAndDown(g: Grid, x: int, y: int, y': int)
    requires Shape(g) && Unobstructed(g) && 0 <= x < g.width && 0 <= y < g.height && 0 <= y' < g.height
    ensures Reaches(g, At(g, x, y), At(g, x, y'))
    decreases if y < y' then y' - y else y - y'
  {
    NeighbourAt(g, x, y);
    if y == y' {
      StayReaches(g, At(g, x, y));
    } else {
      var d, z := if y < y' then 2 else 0, if y < y' then y + 1 else y - 1;
      StepReaches(g, At(g, x, y), d);
      UpAndDown(g, x, z, y');
      ReachesTransitive(g, At(g, x, y), At(g, x, z), At(g, x, y'));
    }
  }

  lemma {:induction false} Leftwards(g: Grid, x: int, y: int, x': int)
    requires Shape(g) && Unobstructed(g) && 0 <= x' <= x < g.width && 0 <= y < g.height
    requires IsCell(g, g.exit) && IsLeftEdge(g, g.exit)
    ensures Reaches(g, At(g, x, y), At(g, x', y))
    decreases x - x'
  {
    NeighbourAt(g, x, y);
    EdgeAt(g, x, y);
    if x == x' {
      StayReaches(g, At(g, x, y));
    } else {
      StepReaches(g, At(g, x, y), 3);
      Leftwards(g, x - 1, y, x');
      ReachesTransitive(g, At(g, x, y), At(g, x - 1, y), At(g, x', y));
    }
  }

  /** On the wall-free cylinder every cell is reachable from the entrance. */
  lemma UnobstructedIsReachable(g: Grid)
    requires Shape(g) && Unobstructed(g)
    requires IsCell(g, g.entrance) && IsRightEdge(g, g.entrance)
    requires IsCell(g, g.exit) && IsLeftEdge(g, g.exit)
    ensures AllReachable(g)
  {
    CellAt(g, g.entrance);
    EdgeAt(g, g.entrance % g.width, g.entrance / g.width);
    forall c | IsCell(g, c) ensures Reaches(g, g.entrance, c) {
      CellAt(g, c);
      var x, y := c % g.width, c / g.width;
      UpAndDown(g, g.width - 1, g.entrance / g.width, y);
      Leftwards(g, g.width - 1, y, x);
      ReachesTransitive(g, g.entrance, At(g, g.width - 1, y), c);
    }
  }
}
