/** The wall-state invariant of the generator and the two edits that keep it. */
module WallState {
  import opened Cells
  import opened MazeGrid

  ghost predicate AgreesOn(g: Grid, c: int, d: Side)
    requires Shape(g) && IsCell(g, c)
  {
    Neighbour(g, c, d) != -1 ==>
      IsCell(g, Neighbour(g, c, d)) && Wall(g, c, d) == Wall(g, Neighbour(g, c, d), Opposite(d))
  }

  ghost predicate AgreesAt(g: Grid, c: int)
    requires Shape(g) && IsCell(g, c)
  {
    forall d: Side :: AgreesOn(g, c, d)
  }

  /** checkEdgeCompatibility: two cells that share a segment agree about it. */
  ghost predicate EdgesAgree(g: Grid)
    requires Shape(g)
  {
    forall c {:trigger AgreesAt(g, c)} :: IsCell(g, c) ==> AgreesAt(g, c)
  }

  /** The two straight edges are walled except at the entrance (right) and the exit (left). */
  ghost predicate BoundaryWalled(g: Grid)
    requires Shape(g)
  {
    && IsCell(g, g.entrance) && IsRightEdge(g, g.entrance)
    && IsCell(g, g.exit) && IsLeftEdge(g, g.exit)
    && (forall c {:trigger IsRightEdge(g, c)} ::
          IsCell(g, c) && IsRightEdge(g, c) ==> (Wall(g, c, 1) <==> c != g.entrance))
    && (forall c {:trigger IsLeftEdge(g, c)} ::
          IsCell(g, c) && IsLeftEdge(g, c) ==> (Wall(g, c, 3) <==> c != g.exit))
  }

  ghost predicate Sound(g: Grid) {
    Shape(g) && EdgesAgree(g) && BoundaryWalled(g)
  }

  lemma SmallestIsSound()
    ensures Sound(Grid(1, 1, 0, 0, [Walls(false, false, false, false)]))
  {
    var g := Grid(1, 1, 0, 0, [Walls(false, false, false, false)]);
    forall c | IsCell(g, c) ensures AgreesAt(g, c) {
      forall d: Side ensures AgreesOn(g, c, d) {
      }
    }
  }

  /** In a sound maze the route search never looks at cell -1. */
  lemma SoundNeverEscapes(g: Grid, c: int)
    requires Sound(g) && IsCell(g, c)
    ensures !Escapes(g, c)
  {
    hide IsRightEdge, IsLeftEdge, Neighbour;
    NeighboursAreCells(g, c);
    forall d: Side | Neighbour(g, c, d) == -1 ensures !Opening(g, c, d) {
      if d == 1 { assert IsRightEdge(g, c); } else { assert d == 3 && IsLeftEdge(g, c); }
    }
  }

  /** One wall more on a cell and on the neighbour that shares the segment. */
  function AddSegment(g: Grid, c: int, d: Side): Grid
    requires Shape(g) && IsCell(g, c) && IsCell(g, Neighbour(g, c, d))
  {
    var nb := Neighbour(g, c, d);
    var cells := g.cells[c := g.cells[c].Set(d, true)];
    g.(cells := cells[nb := cells[nb].Set(Opposite(d), true)])
  }

  /** One wall less on a cell and on the neighbour that shares the segment. */
  function RemoveSegment(g: Grid, c: int, d: Side): Grid
    requires Shape(g) && IsCell(g, c) && IsCell(g, Neighbour(g, c, d))
  {
    var nb := Neighbour(g, c, d);
    var cells := g.cells[c := g.cells[c].Set(d, false)];
    g.(cells := cells[nb := cells[nb].Set(Opposite(d), false)])
  }

  /** The wall (x, e) lies on the segment (c, d). */
  predicate OnSegment(g: Grid, c: int, d: Side, x: int, e: Side)
    requires Shape(g) && IsCell(g, c)
  {
    (x == c && e == d) || (x == Neighbour(g, c, d) && e == Opposite(d))
  }

  function TotalWalls(cells: seq<Walls>): int {
    if cells == [] then 0 else TotalWalls(cells[..|cells| - 1]) + cells[|cells| - 1].Count()
  }

  lemma {:induction false} TotalUpdate(cells: seq<Walls>, i: nat, w: Walls)
    requires i < |cells|
    ensures TotalWalls(cells[i := w]) == TotalWalls(cells) + w.Count() - cells[i].Count()
  {
    var n := |cells| - 1;
    if i == n {
      assert cells[i := w][..n] == cells[..n];
    } else {
      assert cells[i := w][..n] == cells[..n][i := w];
      TotalUpdate(cells[..n], i, w);
    }
  }

  /** Adding an absent segment makes exactly its two sides appear. */
  lemma AddSegmentWalls(g: Grid, c: int, d: Side, x: int, e: Side)
    requires Shape(g) && IsCell(g, c) && IsCell(g, Neighbour(g, c, d)) && IsCell(g, x)
    ensures Shape(AddSegment(g, c, d))
    ensures Wall(AddSegment(g, c, d), x, e) <==> Wall(g, x, e) || OnSegment(g, c, d, x, e)
  {
  }

  /** Adding an absent segment adds two to the wall total. */
  lemma AddSegmentTotal(g: Grid, c: int, d: Side)
    requires Shape(g) && IsCell(g, c) && AgreesAt(g, c)
    requires Neighbour(g, c, d) != -1 && !Wall(g, c, d)
    ensures IsCell(g, Neighbour(g, c, d))
    ensures TotalWalls(AddSegment(g, c, d).cells) == TotalWalls(g.cells) + 2
  {
    var nb := Neighbour(g, c, d);
    assert AgreesOn(g, c, d);
    var cells := g.cells[c := g.cells[c].Set(d, true)];
    assert !cells[nb].Has(Opposite(d));
    TotalUpdate(g.cells, c, cells[c]);
    TotalUpdate(cells, nb, cells[nb].Set(Opposite(d), true));
  }

  lemma ClearSet(w: Walls, d: Side)
    requires !w.Has(d)
    ensures w.Set(d, true).Set(d, false) == w
    ensures !w.Has(Opposite(d)) ==>
              w.Set(d, true).Set(Opposite(d), true).Set(d, false).Set(Opposite(d), false) == w
  {
  }

  /** Removing a segment just added restores the grid, also in a maze of height one, where a
      vertical segment joins a cell to itself. */
  lemma AddThenRemove(g: Grid, c: int, d: Side)
    requires Shape(g) && IsCell(g, c) && AgreesAt(g, c)
    requires Neighbour(g, c, d) != -1 && !Wall(g, c, d)
    ensures IsCell(g, Neighbour(g, c, d))
    ensures RemoveSegment(AddSegment(g, c, d), c, d) == g
  {
    var nb := Neighbour(g, c, d);
    assert AgreesOn(g, c, d);
    ClearSet(g.cells[c], d);
    ClearSet(g.cells[nb], Opposite(d));
    var h := RemoveSegment(AddSegment(g, c, d), c, d);
    forall x | IsCell(g, x) ensures h.cells[x] == g.cells[x] {
      if x != c && x != nb {
        assert h.cells[x] == g.cells[x];
      }
    }
    assert h.cells == g.cells;
  }

  /** Adding an absent interior segment keeps the invariant. */
  lemma AddKeepsSound(g: Grid, c: int, d: Side)
    requires Sound(g) && IsCell(g, c) && IsCell(g, Neighbour(g, c, d))
    ensures Sound(AddSegment(g, c, d))
  {
    var h := AddSegment(g, c, d);
    forall x | IsCell(h, x) ensures AgreesAt(h, x) {
      assert AgreesAt(g, x);
      forall e: Side ensures AgreesOn(h, x, e) {
        assert AgreesOn(g, x, e);
        AddAgrees(g, c, d, x, e);
      }
    }
    forall x | IsCell(h, x) && IsRightEdge(h, x) ensures Wall(h, x, 1) <==> x != h.entrance {
      AddSegmentWalls(g, c, d, x, 1);
      assert IsRightEdge(g, x);
      if OnSegment(g, c, d, x, 1) { NeighbourInvolution(g, c, d); }
    }
    forall x | IsCell(h, x) && IsLeftEdge(h, x) ensures Wall(h, x, 3) <==> x != h.exit {
      AddSegmentWalls(g, c, d, x, 3);
      assert IsLeftEdge(g, x);
      if OnSegment(g, c, d, x, 3) { NeighbourInvolution(g, c, d); }
    }
    assert IsRightEdge(g, g.entrance) && IsLeftEdge(g, g.exit);
  }

  lemma AddAgrees(g: Grid, c: int, d: Side, x: int, e: Side)
    requires Shape(g) && IsCell(g, c) && IsCell(g, Neighbour(g, c, d))
    requires IsCell(g, x) && AgreesOn(g, x, e)
    ensures AgreesOn(AddSegment(g, c, d), x, e)
  {
    var y := Neighbour(g, x, e);
    if y != -1 {
      AddSegmentWalls(g, c, d, x, e);
      AddSegmentWalls(g, c, d, y, Opposite(e));
      NeighbourInvolution(g, c, d);
      NeighbourInvolution(g, x, e);
    }
  }
}
