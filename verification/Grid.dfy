/** Row-major cell numbers: i == y * w + x. */
module RowMajor {

  lemma Coordinates(w: int, h: int, i: int)
    requires w >= 1 && 0 <= i < w * h
    ensures 0 <= i % w < w && 0 <= i / w < h
    ensures i == (i / w) * w + i % w
  {
    if i / w >= h {
      assert (i / w) * w >= h * w by { MulLe(h, i / w, w); }
      assert false;
    }
  }

  lemma Number(w: int, x: int, y: int)
    requires 0 <= x < w
    ensures (y * w + x) / w == y && (y * w + x) % w == x
  {
    var q, r := (y * w + x) / w, (y * w + x) % w;
    assert q * w + r == y * w + x;
    assert (q - y) * w == x - r;
    if q > y { MulLe(1, q - y, w); }
    if q < y { MulLe(1, y - q, w); }
  }

  /** The number after the last one of a row starts the next row. */
  lemma EdgeNumbers(w: int, x: int, y: int)
    requires 0 <= x < w
    ensures (y * w + x + 1) % w == 0 <==> x == w - 1
  {
    if x == w - 1 {
      assert y * w + x + 1 == (y + 1) * w + 0;
      Number(w, 0, y + 1);
    } else {
      Number(w, x + 1, y);
    }
  }

  lemma InRange(w: int, h: int, x: int, y: int)
    requires 0 <= x < w && 0 <= y < h
    ensures 0 <= y * w + x < w * h
  {
    MulLe(0, y, w);
    MulLe(y + 1, h, w);
  }

  lemma MulLe(a: int, b: int, w: int)
    requires a <= b && 0 <= w
    ensures a * w <= b * w
  {
  }

  function Index(w: nat, x: nat, y: nat): nat {
    y * w + x
  }

  /** The last of h rows. */
  lemma LastRow(w: nat, h: nat)
    requires h > 0
    ensures 0 <= (h - 1) * w && h * w == (h - 1) * w + w
    ensures forall x: nat {:trigger Index(w, x, h - 1)} :: Index(w, x, h - 1) == (h - 1) * w + x
  {
  }

  /** (i + k) % n without wrap-around, and with one wrap-around. */
  lemma ModOnce(i: int, n: int)
    requires 0 <= i < 2 * n
    ensures i % n == if i < n then i else i - n
  {
    if i < n {
      Number(n, i, 0);
    } else {
      Number(n, i - n, 1);
    }
  }
}

/** The cell matrix of a maze (class MZ) as a value, its steps and its paths. */
module MazeGrid {
  import opened Cells
  import opened RowMajor

  /** Dimensions, entrance, exit and the walls of every cell, row by row.
      Rows wrap from top to bottom, columns do not. */
  datatype Grid = Grid(width: int, height: int, entrance: int, exit: int, cells: seq<Walls>)

  predicate Shape(g: Grid) {
    g.width >= 1 && g.height >= 1 && |g.cells| == g.width * g.height
  }

  predicate IsCell(g: Grid, c: int) {
    0 <= c < |g.cells|
  }

  predicate Wall(g: Grid, c: int, d: Side)
    requires IsCell(g, c)
  {
    g.cells[c].Has(d)
  }

  predicate IsLeftEdge(g: Grid, c: int)
    requires Shape(g)
  {
    c % g.width == 0
  }

  predicate IsRightEdge(g: Grid, c: int)
    requires Shape(g)
  {
    (c + 1) % g.width == 0
  }

  /** neighBourTop, neighBourRight, neighBourBottom, neighBourLeft; -1 off the two edges. The
      remainders of the two vertical ones are written out. */
  function Neighbour(g: Grid, c: int, d: Side): int
    requires Shape(g) && IsCell(g, c)
  {
    if d == 0 then if c < g.width then c - g.width + |g.cells| else c - g.width
    else if d == 1 then if IsRightEdge(g, c) then -1 else c + 1
    else if d == 2 then if c + g.width < |g.cells| then c + g.width else c + g.width - |g.cells|
    else if IsLeftEdge(g, c) then -1 else c - 1
  }

  /** The cell in column x of row y. */
  function At(g: Grid, x: int, y: int): int {
    y * g.width + x
  }

  function RowAbove(g: Grid, y: int): int {
    if y == 0 then g.height - 1 else y - 1
  }

  function RowBelow(g: Grid, y: int): int {
    if y == g.height - 1 then 0 else y + 1
  }

  lemma AtIsCell(g: Grid, x: int, y: int)
    requires Shape(g) && 0 <= x < g.width && 0 <= y < g.height
    ensures IsCell(g, At(g, x, y))
    ensures At(g, x, y) / g.width == y && At(g, x, y) % g.width == x
  {
    InRange(g.width, g.height, x, y);
    Number(g.width, x, y);
  }

  lemma EdgeAt(g: Grid, x: int, y: int)
    requires Shape(g) && 0 <= x < g.width && 0 <= y < g.height
    ensures IsLeftEdge(g, At(g, x, y)) == (x == 0)
    ensures IsRightEdge(g, At(g, x, y)) == (x == g.width - 1)
  {
    Number(g.width, x, y);
    EdgeNumbers(g.width, x, y);
  }

  lemma TopAt(g: Grid, x: int, y: int)
    requires Shape(g) && 0 <= x < g.width && 0 <= y < g.height && IsCell(g, At(g, x, y))
    ensures Neighbour(g, At(g, x, y), 0) == At(g, x, RowAbove(g, y))
  {
    AtIsCell(g, x, RowAbove(g, y));
    assert At(g, x, y) - g.width == At(g, x, RowAbove(g, y)) - (if y == 0 then |g.cells| else 0);
  }

  lemma BottomAt(g: Grid, x: int, y: int)
    requires Shape(g) && 0 <= x < g.width && 0 <= y < g.height && IsCell(g, At(g, x, y))
    ensures Neighbour(g, At(g, x, y), 2) == At(g, x, RowBelow(g, y))
  {
    AtIsCell(g, x, RowBelow(g, y));
    assert At(g, x, y) + g.width == At(g, x, RowBelow(g, y)) + (if y == g.height - 1 then |g.cells| else 0);
  }

  /** Neighbours in coordinates: up and down wrap, left and right stop at the edges. */
  lemma NeighbourAt(g: Grid, x: int, y: int)
    requires Shape(g) && 0 <= x < g.width && 0 <= y < g.height
    ensures IsCell(g, At(g, x, y))
    ensures Neighbour(g, At(g, x, y), 0) == At(g, x, RowAbove(g, y))
    ensures Neighbour(g, At(g, x, y), 1) == if x == g.width - 1 then -1 else At(g, x + 1, y)
    ensures Neighbour(g, At(g, x, y), 2) == At(g, x, RowBelow(g, y))
    ensures Neighbour(g, At(g, x, y), 3) == if x == 0 then -1 else At(g, x - 1, y)
  {
    AtIsCell(g, x, y);
    EdgeAt(g, x, y);
    TopAt(g, x, y);
    BottomAt(g, x, y);
  }

  /** Every cell is At(x, y) for its own column and row. */
  lemma CellAt(g: Grid, c: int)
    requires Shape(g) && IsCell(g, c)
    ensures 0 <= c % g.width < g.width && 0 <= c / g.width < g.height
    ensures c == At(g, c % g.width, c / g.width)
  {
    Coordinates(g.width, g.height, c);
  }

  lemma AtIsInjective(g: Grid, x: int, y: int, x': int, y': int)
    requires Shape(g) && 0 <= x < g.width && 0 <= x' < g.width
    requires At(g, x, y) == At(g, x', y')
    ensures x == x' && y == y'
  {
    Number(g.width, x, y);
    Number(g.width, x', y');
  }

  /** Going through a side and back through the opposite one returns to the same cell. */
  lemma NeighbourInvolution(g: Grid, c: int, d: Side)
    requires Shape(g) && IsCell(g, c) && Neighbour(g, c, d) != -1
    ensures IsCell(g, Neighbour(g, c, d))
    ensures Neighbour(g, Neighbour(g, c, d), Opposite(d)) == c
  {
    CellAt(g, c);
    var x, y := c % g.width, c / g.width;
    NeighbourAt(g, x, y);
    if d == 0 { NeighbourAt(g, x, RowAbove(g, y)); }
    else if d == 1 { NeighbourAt(g, x + 1, y); }
    else if d == 2 { NeighbourAt(g, x, RowBelow(g, y)); }
    else { NeighbourAt(g, x - 1, y); }
  }

  lemma OneRow(g: Grid)
    requires Shape(g)
    ensures |g.cells| >= g.width
  {
    MulLe(1, g.height, g.width);
  }

  /** The vertical neighbours as the program computes them, with remainders. */
  lemma VerticalRemainders(g: Grid, c: int)
    requires Shape(g) && IsCell(g, c)
    ensures Neighbour(g, c, 0) == (c - g.width + |g.cells|) % |g.cells|
    ensures Neighbour(g, c, 2) == (c + g.width) % |g.cells|
  {
    MulLe(1, g.height, g.width);
    ModOnce(c - g.width + |g.cells|, |g.cells|);
    ModOnce(c + g.width, |g.cells|);
  }

  lemma NeighboursAreCells(g: Grid, c: int)
    requires Shape(g) && IsCell(g, c)
    ensures IsCell(g, Neighbour(g, c, 0)) && IsCell(g, Neighbour(g, c, 2))
    ensures !IsRightEdge(g, c) ==> IsCell(g, Neighbour(g, c, 1))
    ensures !IsLeftEdge(g, c) ==> IsCell(g, Neighbour(g, c, 3))
  {
    OneRow(g);
    hide IsRightEdge, IsLeftEdge;
    if !IsRightEdge(g, c) { NeighbourInvolution(g, c, 1); }
    if !IsLeftEdge(g, c) { NeighbourInvolution(g, c, 3); }
  }

  /** The side is open and the search would look through it: it never looks right out of the
      entrance nor left out of the exit. */
  predicate Opening(g: Grid, c: int, d: Side)
    requires IsCell(g, c)
  {
    !Wall(g, c, d) && (d == 1 ==> c != g.entrance) && (d == 3 ==> c != g.exit)
  }

  predicate CanStep(g: Grid, c: int, d: Side)
    requires Shape(g) && IsCell(g, c)
  {
    Opening(g, c, d) && Neighbour(g, c, d) != -1
  }

  /** The search would index cell -1 from here. */
  predicate Escapes(g: Grid, c: int)
    requires Shape(g) && IsCell(g, c)
  {
    exists d: Side :: Opening(g, c, d) && Neighbour(g, c, d) == -1
  }

  ghost predicate Step(g: Grid, a: int, b: int)
    requires Shape(g) && IsCell(g, a)
  {
    exists d: Side :: CanStep(g, a, d) && Neighbour(g, a, d) == b
  }

  /** A walk: a non-empty list of cells, each a legal open step from the one before. */
  ghost predicate IsWalk(g: Grid, p: seq<int>)
    requires Shape(g)
  {
    && p != []
    && (forall i :: 0 <= i < |p| ==> IsCell(g, p[i]))
    && (forall i :: 1 <= i < |p| ==> Step(g, p[i - 1], p[i]))
  }

  function Last(p: seq<int>): int
    requires p != []
  {
    p[|p| - 1]
  }

  ghost predicate Joins(g: Grid, p: seq<int>, a: int, b: int)
    requires Shape(g)
  {
    IsWalk(g, p) && p[0] == a && Last(p) == b
  }

  ghost predicate Reaches(g: Grid, a: int, b: int)
    requires Shape(g)
  {
    exists p :: Joins(g, p, a, b)
  }

  ghost predicate AllReachable(g: Grid)
    requires Shape(g)
  {
    forall c {:trigger Reaches(g, g.entrance, c)} :: IsCell(g, c) ==> Reaches(g, g.entrance, c)
  }

  lemma StayReaches(g: Grid, a: int)
    requires Shape(g) && IsCell(g, a)
    ensures Reaches(g, a, a)
  {
    assert Joins(g, [a], a, a);
  }

  lemma StepReaches(g: Grid, a: int, d: Side)
    requires Shape(g) && IsCell(g, a) && CanStep(g, a, d)
    ensures Reaches(g, a, Neighbour(g, a, d))
  {
    NeighbourInvolution(g, a, d);
    assert Joins(g, [a, Neighbour(g, a, d)], a, Neighbour(g, a, d));
  }

  lemma ExtendWalk(g: Grid, p: seq<int>, c: int)
    requires Shape(g) && IsWalk(g, p) && IsCell(g, c) && Step(g, Last(p), c)
    ensures Joins(g, p + [c], p[0], c)
  {
  }

  lemma ReachesTransitive(g: Grid, a: int, b: int, c: int)
    requires Shape(g) && Reaches(g, a, b) && Reaches(g, b, c)
    ensures Reaches(g, a, c)
  {
    var p :| Joins(g, p, a, b);
    var q :| Joins(g, q, b, c);
    var r := p + q[1..];
    forall i | 1 <= i < |r| ensures Step(g, r[i - 1], r[i]) {
      if i >= |p| {
        assert r[i] == q[i - |p| + 1] && r[i - 1] == q[i - |p|];
      }
    }
    assert Joins(g, r, a, c);
  }

  /** If every step of one grid can be walked in another, so can every walk. */
  lemma {:induction false} StepwiseReaches(g: Grid, h: Grid, p: seq<int>)
    requires Shape(g) && Shape(h) && |g.cells| == |h.cells| && IsWalk(g, p)
    requires forall a, b :: IsCell(g, a) && Step(g, a, b) ==> Reaches(h, a, b)
    ensures Reaches(h, p[0], Last(p))
  {
    if |p| == 1 {
      StayReaches(h, p[0]);
    } else {
      var q := p[..|p| - 1];
      StepwiseReaches(g, h, q);
      assert Step(g, p[|p| - 2], p[|p| - 1]);
      ReachesTransitive(h, p[0], Last(q), Last(p));
    }
  }
}
