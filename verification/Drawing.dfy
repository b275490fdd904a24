/** How the drawing loops of updateVisual and updateIntersections address the drawing. */
module Drawing {
  import opened RowMajor
  import opened MazeGrid
  import opened Lattice

  /** The cell whose turn it is when updateVisual decides position (x, y). */
  function Owner(g: Grid, x: int, y: int): int {
    if x % 2 == 1 then At(g, x / 2, if y < g.height then y else y - 1)
    else At(g, if x / 2 < g.width then x / 2 else x / 2 - 1, y - 1)
  }

  predicate InDrawing(g: Grid, x: int, y: int) {
    0 <= x < 2 * g.width + 1 && 0 <= y < g.height + 1
  }

  /** What updateVisual writes while it is at cell i, in column col and this row: the top wall, in
      the bottom row also the bottom wall, the left wall, and at the right edge also the right wall. */
  predicate Marks(g: Grid, i: int, col: int, row: int, x: int, y: int)
    requires Shape(g) && IsCell(g, i)
  {
    || (x == 2 * col + 1 && y == row && Wall(g, i, 0))
    || (x == 2 * col + 1 && y == row + 1 && row == g.height - 1 && Wall(g, i, 2))
    || (x == 2 * col && y == row + 1 && Wall(g, i, 3))
    || (x == 2 * col + 2 && y == row + 1 && col == g.width - 1 && Wall(g, i, 1))
  }

  lemma BottomRowAt(g: Grid, col: int, row: int)
    requires Shape(g) && 0 <= col < g.width && 0 <= row < g.height
    ensures At(g, col, row) >= |g.cells| - g.width <==> row == g.height - 1
  {
    assert |g.cells| - g.width == (g.height - 1) * g.width;
    if row < g.height - 1 { MulLe(row + 1, g.height - 1, g.width); }
  }

  lemma DoubledColumn(w: int, col: int, row: int)
    requires 0 <= col < w
    ensures (2 * (row * w + col)) % (2 * w) == 2 * col && (2 * (row * w + col) + 1) % (2 * w) == 2 * col + 1
  {
    assert 2 * (row * w + col) == row * (2 * w) + 2 * col;
    Number(2 * w, 2 * col, row);
    Number(2 * w, 2 * col + 1, row);
  }

  lemma DrawingColumns(g: Grid, col: int, row: int)
    requires Shape(g) && 0 <= col < g.width && 0 <= row < g.height
    ensures var i := At(g, col, row);
            && IsCell(g, i) && i / g.width == row
            && (2 * i) % (2 * g.width) == 2 * col && (2 * i + 1) % (2 * g.width) == 2 * col + 1
            && (i >= |g.cells| - g.width <==> row == g.height - 1)
            && (IsRightEdge(g, i) <==> col == g.width - 1)
  {
    AtIsCell(g, col, row);
    EdgeAt(g, col, row);
    BottomRowAt(g, col, row);
    DoubledColumn(g.width, col, row);
  }

  /** Every position is marked by its owner and by no other cell, exactly if it is drawn. */
  lemma MarksAreDrawn(g: Grid, i: int, col: int, row: int, x: int, y: int)
    requires Shape(g) && IsCell(g, i) && InDrawing(g, x, y)
    requires 0 <= col < g.width && 0 <= row < g.height && i == At(g, col, row)
    ensures Marks(g, i, col, row, x, y) <==> Drawn(g, x, y) && Owner(g, x, y) == i
  {
    if Drawn(g, x, y) && Owner(g, x, y) == i {
      var oc := if x % 2 == 1 || x / 2 < g.width then x / 2 else x / 2 - 1;
      var or := if x % 2 == 1 && y < g.height then y else y - 1;
      AtIsInjective(g, oc, or, col, row);
    }
  }

  lemma OwnersAreCells(g: Grid, x: int, y: int)
    requires Shape(g) && InDrawing(g, x, y) && Drawn(g, x, y)
    ensures IsCell(g, Owner(g, x, y))
  {
    AtIsCell(g, if x % 2 == 1 || x / 2 < g.width then x / 2 else x / 2 - 1,
             if x % 2 == 1 && y < g.height then y else y - 1);
  }

  /** The index arithmetic of updateIntersections finds the four segments at a lattice point:
      left and right of it in the same drawing row, */
  lemma LevelsInVisual(g: Grid, s: seq<bool>, x: int, y: int)
    requires Shape(g) && IsVisual(g, s) && 0 <= x <= g.width && 0 <= y < g.height
    ensures var i := 2 * x + y * (2 * g.width + 1);
            && (x > 0 ==> 0 <= i - 1 < |s| && s[i - 1] == Level(g, x - 1, y))
            && (x < g.width ==> 0 <= i + 1 < |s| && s[i + 1] == Level(g, x, y))
  {
    assert x > 0 ==> Drawn(g, 2 * x - 1, y) == Level(g, x - 1, y);
    assert x < g.width ==> Drawn(g, 2 * x + 1, y) == Level(g, x, y);
  }

  /** one drawing row further down the segment below it, at the point itself the one above, */
  lemma UprightsInVisual(g: Grid, s: seq<bool>, x: int, y: int)
    requires Shape(g) && IsVisual(g, s) && 0 <= x <= g.width && 0 <= y < g.height
    ensures var wide := 2 * g.width + 1;
            var i := 2 * x + y * wide;
            && 0 <= i < i + wide < |s| && (i + wide) % |s| == i + wide
            && s[i + wide] == Upright(g, x, y) && s[i] == (y > 0 && Upright(g, x, y - 1))
  {
    hide Upright, Level;
    var wide := 2 * g.width + 1;
    assert Drawn(g, 2 * x, y) == (y > 0 && Upright(g, x, y - 1));
    assert Drawn(g, 2 * x, y + 1) == Upright(g, x, y);
    assert (y + 1) * wide + 2 * x == 2 * x + y * wide + wide;
    ModOnce(2 * x + y * wide + wide, |s|);
  }

  /** and in row 0 the segment above it in the last drawing row. */
  lemma TopUprightInVisual(g: Grid, s: seq<bool>, x: int)
    requires Shape(g) && IsVisual(g, s) && 0 <= x <= g.width
    ensures |s| > 0
    ensures var above := (2 * x - (2 * g.width + 1) + |s|) % |s|;
            0 <= above < |s| && s[above] == Upright(g, x, g.height - 1)
  {
    var wide := 2 * g.width + 1;
    assert Drawn(g, 2 * x, g.height) == Upright(g, x, g.height - 1);
    assert 2 * x - wide + |s| == g.height * wide + 2 * x;
    ModOnce(2 * x - wide + |s|, |s|);
  }

  /** All four at once. */
  lemma SegmentsInVisual(g: Grid, s: seq<bool>, x: int, y: int, wide: int, size: int, i: int)
    requires Shape(g) && IsVisual(g, s) && 0 <= x <= g.width && 0 <= y < g.height
    requires wide == 2 * g.width + 1 && size == (g.height + 1) * wide && i == 2 * x + y * wide
    ensures size == |s| > 0 && 0 <= i < |s| && 0 <= (i + wide) % size < |s|
    ensures x > 0 ==> 0 <= i - 1 < |s| && s[i - 1] == Level(g, x - 1, y)
    ensures x < g.width ==> 0 <= i + 1 < |s| && s[i + 1] == Level(g, x, y)
    ensures s[(i + wide) % size] == Upright(g, x, y) && s[i] == (y > 0 && Upright(g, x, y - 1))
    ensures y == 0 ==> 0 <= (i - wide + size) % size < |s| && s[(i - wide + size) % size] == Upright(g, x, g.height - 1)
  {
    hide Level, Upright;
    LevelsInVisual(g, s, x, y);
    UprightsInVisual(g, s, x, y);
    TopUprightInVisual(g, s, x);
  }
}
