/** The drawing grid and the lattice points of a maze (updateVisual, updateIntersections). */
module Lattice {
  import opened Cells
  import opened RowMajor
  import opened MazeGrid
  import opened WallState

  /** The vertical segment at lattice column x beside the cells of row r. */
  predicate Upright(g: Grid, x: int, r: int)
    requires Shape(g) && 0 <= x <= g.width && 0 <= r < g.height
  {
    AtIsCell(g, if x < g.width then x else x - 1, r);
    if x < g.width then Wall(g, At(g, x, r), 3) else Wall(g, At(g, x - 1, r), 1)
  }

  /** The horizontal segment above the cell in column x of row y. */
  predicate Level(g: Grid, x: int, y: int)
    requires Shape(g) && 0 <= x < g.width && 0 <= y < g.height
  {
    AtIsCell(g, x, y);
    Wall(g, At(g, x, y), 0)
  }

  /** The number of wall segments that meet at the lattice point (x, y) of the cylinder. */
  function Degree(g: Grid, x: int, y: int): int
    requires Shape(g) && 0 <= x <= g.width && 0 <= y < g.height
  {
    Flag(x > 0 && Level(g, x - 1, y)) + Flag(x < g.width && Level(g, x, y))
    + Flag(Upright(g, x, y)) + Flag(Upright(g, x, RowAbove(g, y)))
  }

  /** A segment leaves the lattice point (x, y) towards side d: up, right, down or left. Segments up and
      down are the left walls of cells or, at the right end, right walls; the others are top walls. */
  predicate Meets(g: Grid, x: int, y: int, d: Side)
    requires Shape(g) && 0 <= x <= g.width && 0 <= y < g.height
  {
    var r := if d == 2 then y else if y == 0 then g.height - 1 else y - 1;
    AtIsCell(g, if x < g.width then x else x - 1, r);
    AtIsCell(g, if x < g.width then x else x - 1, y);
    AtIsCell(g, if x > 0 then x - 1 else x, y);
    if d == 1 then x < g.width && g.cells[At(g, x, y)].top
    else if d == 3 then x > 0 && g.cells[At(g, x - 1, y)].top
    else if x < g.width then g.cells[At(g, x, r)].left
    else g.cells[At(g, x - 1, r)].right
  }

  lemma Without(s: set<Side>, d: Side)
    ensures |s| == |s - {d}| + Flag(d in s)
  {
    if d in s { assert s == (s - {d}) + {d}; } else { assert s == s - {d}; }
  }

  lemma NoSideLeft(s: set<Side>)
    requires 0 !in s && 1 !in s && 2 !in s && 3 !in s
    ensures s == {}
  {
    assert forall d: Side :: d in s ==> d == 0 || d == 1 || d == 2 || d == 3;
  }

  lemma FourSides(s: set<Side>)
    ensures |s| == Flag(0 in s) + Flag(1 in s) + Flag(2 in s) + Flag(3 in s)
  {
    var s1 := s - {0};
    var s2 := s1 - {1};
    var s3 := s2 - {2};
    Without(s, 0);
    Without(s1, 1);
    Without(s2, 2);
    Without(s3, 3);
    NoSideLeft(s3 - {3});
  }

  /** The degree of a lattice point counts the sides on which a segment leaves it. */
  lemma DegreeCounts(g: Grid, x: int, y: int)
    requires Shape(g) && 0 <= x <= g.width && 0 <= y < g.height
    ensures Degree(g, x, y) == |set d: Side | Meets(g, x, y, d)|
  {
    FourSides(set d: Side | Meets(g, x, y, d));
  }

  /** The character position (x, y) of the drawing: odd columns hold the top walls (and, in the
      extra last row, the bottom walls of the bottom row), even columns the upright walls. */
  predicate Drawn(g: Grid, x: int, y: int)
    requires Shape(g) && 0 <= x < 2 * g.width + 1 && 0 <= y < g.height + 1
  {
    if x % 2 == 1 then
      if y < g.height then Level(g, x / 2, y)
      else
        AtIsCell(g, x / 2, y - 1);
        Wall(g, At(g, x / 2, y - 1), 2)
    else y > 0 && Upright(g, x / 2, y - 1)
  }

  /** What is drawn where: the top and left wall of every cell, at the right edge also the right wall,
      in the bottom row also the bottom wall, and nothing else. */
  lemma DrawnShows(g: Grid, x: int, y: int)
    requires Shape(g) && 0 <= x < g.width && 0 <= y < g.height
    ensures IsCell(g, At(g, x, y))
    ensures var w := g.cells[At(g, x, y)];
            && (Drawn(g, 2 * x + 1, y) <==> w.top) && (Drawn(g, 2 * x, y + 1) <==> w.left)
            && (x == g.width - 1 ==> (Drawn(g, 2 * x + 2, y + 1) <==> w.right))
            && (y == g.height - 1 ==> (Drawn(g, 2 * x + 1, y + 1) <==> w.bottom))
    ensures !Drawn(g, 2 * x, 0) && !Drawn(g, 2 * x + 2, 0)
  {
    AtIsCell(g, x, y);
  }

  /** Where edges agree, the last drawing row repeats the segments of the first. */
  lemma LastRowIsFirst(g: Grid, x: int)
    requires Shape(g) && EdgesAgree(g) && 0 <= x < 2 * g.width + 1 && x % 2 == 1
    ensures Drawn(g, x, g.height) <==> Drawn(g, x, 0)
  {
    AtIsCell(g, x / 2, g.height - 1);
    NeighbourAt(g, x / 2, g.height - 1);
    assert AgreesAt(g, At(g, x / 2, g.height - 1)) && AgreesOn(g, At(g, x / 2, g.height - 1), 2);
  }

  /** m_CLMatrixVisual: the drawing row by row. */
  function Visual(g: Grid): (s: seq<bool>)
    requires Shape(g)
    ensures |s| == (g.height + 1) * (2 * g.width + 1)
  {
    MulLe(0, g.height + 1, 2 * g.width + 1);
    seq((g.height + 1) * (2 * g.width + 1), i requires 0 <= i < (g.height + 1) * (2 * g.width + 1) =>
      Coordinates(2 * g.width + 1, g.height + 1, i);
      Drawn(g, i % (2 * g.width + 1), i / (2 * g.width + 1)))
  }

  lemma VisualAt(g: Grid, x: int, y: int)
    requires Shape(g) && 0 <= x < 2 * g.width + 1 && 0 <= y < g.height + 1
    ensures var i := y * (2 * g.width + 1) + x;
            0 <= i < |Visual(g)| && Visual(g)[i] == Drawn(g, x, y)
  {
    InRange(2 * g.width + 1, g.height + 1, x, y);
    Number(2 * g.width + 1, x, y);
  }

  /** The drawing, addressed by position. */
  ghost predicate IsVisual(g: Grid, s: seq<bool>)
    requires Shape(g)
  {
    && |s| == (g.height + 1) * (2 * g.width + 1)
    && forall x, y {:trigger Drawn(g, x, y)} :: 0 <= x < 2 * g.width + 1 && 0 <= y < g.height + 1 ==>
         0 <= y * (2 * g.width + 1) + x < |s| && s[y * (2 * g.width + 1) + x] == Drawn(g, x, y)
  }

  lemma VisualIsVisual(g: Grid)
    requires Shape(g)
    ensures IsVisual(g, Visual(g))
  {
    hide Visual, Drawn, Shape;
    forall x, y | 0 <= x < 2 * g.width + 1 && 0 <= y < g.height + 1
      ensures 0 <= y * (2 * g.width + 1) + x < |Visual(g)|
      ensures Visual(g)[y * (2 * g.width + 1) + x] == Drawn(g, x, y)
    {
      VisualAt(g, x, y);
    }
  }

  /** m_CLIntersections: the degrees of the lattice points, row by row. */
  function Intersections(g: Grid): (s: seq<int>)
    requires Shape(g)
    ensures |s| == g.height * (g.width + 1)
  {
    MulLe(0, g.height, g.width + 1);
    seq(g.height * (g.width + 1), i requires 0 <= i < g.height * (g.width + 1) =>
      Coordinates(g.width + 1, g.height, i);
      Degree(g, i % (g.width + 1), i / (g.width + 1)))
  }

  /** m_CLWallCount. */
  function WallCounts(g: Grid): seq<int> {
    seq(|g.cells|, i requires 0 <= i < |g.cells| => g.cells[i].Count())
  }

  /** The wall count of a cell is the number of sides on which it has a wall. */
  lemma WallCountsSides(g: Grid, c: int)
    requires IsCell(g, c)
    ensures WallCounts(g)[c] == |set d: Side | Wall(g, c, d)|
  {
    FourSides(set d: Side | Wall(g, c, d));
  }

  /** m_minIntersections starts at 5. */
  function Least(s: seq<int>): (m: int)
    ensures m <= 5 && forall i :: 0 <= i < |s| ==> m <= s[i]
    ensures m == 5 || m in s
  {
    if s == [] then 5
    else
      var m, n := Least(s[..|s| - 1]), s[|s| - 1];
      if n < m then n else m
  }

  lemma LeastAppend(s: seq<int>, n: int)
    ensures Least(s + [n]) == if n < Least(s) then n else Least(s)
  {
    assert (s + [n])[..|s|] == s;
  }

  /** The least count is 0 exactly when some lattice point has no walls. */
  lemma LeastIsPositive(g: Grid)
    requires Shape(g)
    ensures Least(Intersections(g)) != 0 <==> AllPointsWalled(g, 0)
  {
    var s := Intersections(g);
    if Least(s) != 0 {
      forall x, y | 0 <= x <= g.width && 0 <= y < g.height ensures Degree(g, x, y) > 0 {
        IntersectionAt(g, x, y);
      }
    } else {
      var i :| 0 <= i < |s| && s[i] == 0;
      var x, y := PointOf(g, i);
      assert Degree(g, x, y) == 0;
    }
  }

  /** Every lattice point from row y0 down has walls. */
  ghost predicate AllPointsWalled(g: Grid, y0: nat)
    requires Shape(g)
  {
    forall x, y {:trigger Degree(g, x, y)} :: 0 <= x <= g.width && y0 <= y < g.height ==> Degree(g, x, y) > 0
  }

  /** The cell whose lower right corner is lattice point number i; negative for row 0. */
  function CornerCell(g: Grid, i: int): int
    requires Shape(g)
  {
    (i / (g.width + 1) - 1) * g.width + (i % (g.width + 1) - 1)
  }

  /** m_vIntersectionProblems after the first n lattice points. */
  function ProblemsUpTo(g: Grid, s: seq<int>, n: nat): seq<int>
    requires Shape(g) && n <= |s|
  {
    if n == 0 then []
    else
      var rest := ProblemsUpTo(g, s, n - 1);
      if Listed(g, s, n - 1) then rest + [CornerCell(g, n - 1)] else rest
  }

  function Problems(g: Grid): seq<int>
    requires Shape(g)
  {
    ProblemsUpTo(g, Intersections(g), |Intersections(g)|)
  }

  /** A cell whose lower right corner is a lattice point without walls, below lattice row 0. */
  predicate IsProblem(g: Grid, p: int)
    requires Shape(g)
  {
    && IsCell(g, p) && !IsRightEdge(g, p) && 1 <= p % g.width + 1 < g.width
    && 1 <= p / g.width + 1 < g.height
    && Degree(g, p % g.width + 1, p / g.width + 1) == 0
  }

  lemma IntersectionAt(g: Grid, x: int, y: int)
    requires Shape(g) && 0 <= x <= g.width && 0 <= y < g.height
    ensures var i := y * (g.width + 1) + x;
            && 0 <= i < |Intersections(g)| && Intersections(g)[i] == Degree(g, x, y)
            && CornerCell(g, i) == At(g, x - 1, y - 1)
  {
    InRange(g.width + 1, g.height, x, y);
    Number(g.width + 1, x, y);
  }

  /** The degrees, addressed by lattice point. */
  ghost predicate IsIntersections(g: Grid, s: seq<int>)
    requires Shape(g)
  {
    && |s| == g.height * (g.width + 1)
    && forall x, y {:trigger Degree(g, x, y)} :: 0 <= x <= g.width && 0 <= y < g.height ==>
         0 <= y * (g.width + 1) + x < |s| && s[y * (g.width + 1) + x] == Degree(g, x, y)
  }

  lemma IntersectionsAreIntersections(g: Grid)
    requires Shape(g)
    ensures IsIntersections(g, Intersections(g))
  {
    hide Intersections, Degree, CornerCell, At;
    forall x, y | 0 <= x <= g.width && 0 <= y < g.height
      ensures 0 <= y * (g.width + 1) + x < |Intersections(g)|
      ensures Intersections(g)[y * (g.width + 1) + x] == Degree(g, x, y)
    {
      IntersectionAt(g, x, y);
    }
  }

  lemma PointOf(g: Grid, i: int) returns (x: int, y: int)
    requires Shape(g) && 0 <= i < |Intersections(g)|
    ensures 0 <= x <= g.width && 0 <= y < g.height && i == y * (g.width + 1) + x
    ensures Intersections(g)[i] == Degree(g, x, y) && CornerCell(g, i) == At(g, x - 1, y - 1)
  {
    x, y := i % (g.width + 1), i / (g.width + 1);
    Coordinates(g.width + 1, g.height, i);
  }

  /** On the two straight edges no lattice point below row 0 is without walls. */
  lemma EdgePointsWalled(g: Grid, x: int, y: int)
    requires Sound(g) && (x == 0 || x == g.width) && 1 <= y < g.height
    ensures Degree(g, x, y) > 0
  {
    if x == 0 {
      EdgeAt(g, 0, y); EdgeAt(g, 0, y - 1);
      AtIsCell(g, 0, y); AtIsCell(g, 0, y - 1);
    } else {
      EdgeAt(g, x - 1, y); EdgeAt(g, x - 1, y - 1);
      AtIsCell(g, x - 1, y); AtIsCell(g, x - 1, y - 1);
    }
  }

  /** What puts a cell on the list: a lattice point off both edges and off row 0. */
  lemma ProblemAt(g: Grid, x: int, y: int)
    requires Sound(g) && 0 <= x <= g.width && 0 <= y < g.height
    requires Degree(g, x, y) == 0 && At(g, x - 1, y - 1) >= 0
    ensures 1 <= x < g.width && 1 <= y && IsProblem(g, At(g, x - 1, y - 1))
  {
    if y >= 1 {
      if x == 0 || x == g.width { EdgePointsWalled(g, x, y); }
      AtIsCell(g, x - 1, y - 1);
      EdgeAt(g, x - 1, y - 1);
    }
  }

  predicate Listed(g: Grid, s: seq<int>, i: int)
    requires Shape(g) && 0 <= i < |s|
  {
    s[i] == 0 && CornerCell(g, i) >= 0
  }

  lemma ListedPoint(g: Grid, i: int) returns (x: int, y: int)
    requires Sound(g) && 0 <= i < |Intersections(g)| && Listed(g, Intersections(g), i)
    ensures 1 <= x < g.width && 1 <= y < g.height && i == y * (g.width + 1) + x
    ensures Degree(g, x, y) == 0 && CornerCell(g, i) == At(g, x - 1, y - 1)
  {
    x, y := PointOf(g, i);
    ProblemAt(g, x, y);
  }

  lemma {:induction false} ProblemsListed(g: Grid, s: seq<int>, n: nat, p: int)
    requires Shape(g) && n <= |s|
    ensures p in ProblemsUpTo(g, s, n) <==> exists i :: 0 <= i < n && Listed(g, s, i) && CornerCell(g, i) == p
  {
    if n == 0 {
    } else {
      ProblemsListed(g, s, n - 1, p);
      assert Listed(g, s, n - 1) ==> CornerCell(g, n - 1) in ProblemsUpTo(g, s, n);
    }
  }

  /** In a sound maze the list holds exactly the problem cells. */
  lemma ProblemsExact(g: Grid, p: int)
    requires Sound(g)
    ensures p in Problems(g) <==> IsProblem(g, p)
  {
    hide Degree, EdgesAgree, BoundaryWalled;
    var s := Intersections(g);
    ProblemsListed(g, s, |s|, p);
    if p in Problems(g) {
      var i :| 0 <= i < |s| && Listed(g, s, i) && CornerCell(g, i) == p;
      var x, y := ListedPoint(g, i);
      ProblemAt(g, x, y);
    }
    if IsProblem(g, p) {
      var x, y := p % g.width + 1, p / g.width + 1;
      CellAt(g, p);
      IntersectionAt(g, x, y);
      assert Listed(g, s, y * (g.width + 1) + x);
    }
  }

  lemma CornersIncrease(w: int, x: int, y: int, x': int, y': int)
    requires 1 <= x < w && 1 <= x' < w && y * (w + 1) + x < y' * (w + 1) + x'
    ensures (y - 1) * w + (x - 1) < (y' - 1) * w + (x' - 1)
  {
    if y > y' {
      MulLe(y' + 1, y, w + 1);
    } else if y < y' {
      MulLe(y, y' - 1, w);
    }
  }

  ghost predicate CornersOrdered(g: Grid, s: seq<int>)
    requires Shape(g)
  {
    forall i, j {:trigger Listed(g, s, i), Listed(g, s, j)} ::
      0 <= i < j < |s| && Listed(g, s, i) && Listed(g, s, j) ==> CornerCell(g, i) < CornerCell(g, j)
  }

  predicate Increasing(ps: seq<int>) {
    forall a, b :: 0 <= a < b < |ps| ==> ps[a] < ps[b]
  }

  lemma {:induction false} ProblemsSorted(g: Grid, s: seq<int>, n: nat)
    requires Shape(g) && n <= |s| && CornersOrdered(g, s)
    ensures Increasing(ProblemsUpTo(g, s, n))
  {
    if n == 0 {
    } else {
      ProblemsSorted(g, s, n - 1);
      var rest := ProblemsUpTo(g, s, n - 1);
      if Listed(g, s, n - 1) {
        forall a | 0 <= a < |rest| ensures rest[a] < CornerCell(g, n - 1) {
          ProblemsListed(g, s, n - 1, rest[a]);
          assert Listed(g, s, n - 1);
        }
        assert ProblemsUpTo(g, s, n) == rest + [CornerCell(g, n - 1)];
      }
    }
  }

  lemma ListedOrder(g: Grid, i: int, j: int)
    requires Sound(g) && 0 <= i < j < |Intersections(g)|
    requires Listed(g, Intersections(g), i) && Listed(g, Intersections(g), j)
    ensures CornerCell(g, i) < CornerCell(g, j)
  {
    var x, y := ListedPoint(g, i);
    var x', y' := ListedPoint(g, j);
    CornersIncrease(g.width, x, y, x', y');
  }

  lemma CornersAreOrdered(g: Grid)
    requires Sound(g)
    ensures CornersOrdered(g, Intersections(g))
  {
    var s := Intersections(g);
    forall i, j | 0 <= i < j < |s| && Listed(g, s, i) && Listed(g, s, j)
      ensures CornerCell(g, i) < CornerCell(g, j)
    {
      ListedOrder(g, i, j);
    }
  }

  /** No cell is listed twice: the list is strictly increasing. */
  lemma ProblemsIncrease(g: Grid)
    requires Sound(g)
    ensures Increasing(Problems(g))
  {
    CornersAreOrdered(g);
    ProblemsSorted(g, Intersections(g), |Intersections(g)|);
  }
}
