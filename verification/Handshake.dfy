/** Every segment has two ends: the degrees of all lattice points add up to twice the number of segments. */
module Handshake {
  import opened Cells
  import opened RowMajor
  import opened Counting
  import opened MazeGrid
  import opened Lattice
  import opened RouteStatistics
  import opened Segments

  // ----- Sums over rows and columns -----

  /** The sum of f over the first x columns of row y. */
  function RowSum(f: (int, int) -> int, x: nat, y: int): int {
    if x == 0 then 0 else RowSum(f, x - 1, y) + f(x - 1, y)
  }

  /** The sum of f over the first w columns of the first y rows. */
  function GridSum(f: (int, int) -> int, w: nat, y: nat): int {
    if y == 0 then 0 else GridSum(f, w, y - 1) + RowSum(f, w, y - 1)
  }

  lemma {:induction false} SumConcat(s: seq<int>, t: seq<int>)
    ensures Sum(s + t) == Sum(s) + Sum(t)
  {
    if t == [] {
      assert s + t == s;
    } else {
      SumConcat(s, t[..|t| - 1]);
      assert (s + t)[..|s + t| - 1] == s + t[..|t| - 1];
    }
  }

  lemma {:induction false} SumOfRow(s: seq<int>, f: (int, int) -> int, y: int)
    requires forall x :: 0 <= x < |s| ==> s[x] == f(x, y)
    ensures Sum(s) == RowSum(f, |s|, y)
  {
    if s == [] {
    } else {
      SumOfRow(s[..|s| - 1], f, y);
    }
  }

  /** One more row at the end of a list. */
  lemma SumWithRow(s: seq<int>, f: (int, int) -> int, w: nat, h: nat, n: nat)
    requires h > 0 && |s| == n + w && Sum(s[..n]) == GridSum(f, w, h - 1)
    requires forall x :: 0 <= x < w ==> s[n..][x] == f(x, h - 1)
    ensures Sum(s) == GridSum(f, w, h)
  {
    hide Sum, RowSum;
    SumOfRow(s[n..], f, h - 1);
    SumConcat(s[..n], s[n..]);
    assert s == s[..n] + s[n..];
  }

  /** A list that holds f row by row adds up to the sum over the grid. */
  lemma {:induction false} SumByRows(s: seq<int>, f: (int, int) -> int, w: nat, h: nat)
    requires |s| == h * w
    requires forall x: nat, y: nat {:trigger Index(w, x, y)} :: x < w && y < h && Index(w, x, y) < |s| ==>
               s[Index(w, x, y)] == f(x, y)
    ensures Sum(s) == GridSum(f, w, h)
  {
    if h == 0 {
    } else {
      var n := (h - 1) * w;
      LastRow(w, h);
      hide Index, Sum, GridSum;
      forall x: nat, y: nat | x < w && y < h - 1 && Index(w, x, y) < n
        ensures s[..n][Index(w, x, y)] == f(x, y)
      {
        assert s[..n][Index(w, x, y)] == s[Index(w, x, y)];
      }
      SumByRows(s[..n], f, w, h - 1);
      forall x | 0 <= x < w ensures s[n..][x] == f(x, h - 1) {
        assert Index(w, x, h - 1) == n + x;
      }
      SumWithRow(s, f, w, h, n);
    }
  }

  function Flags(s: seq<bool>): seq<int> {
    seq(|s|, i requires 0 <= i < |s| => Flag(s[i]))
  }

  lemma {:induction false} TallyIsSum(s: seq<bool>)
    ensures Tally(s) == Sum(Flags(s))
  {
    if s == [] {
    } else {
      TallyIsSum(s[..|s| - 1]);
      assert Flags(s)[..|s| - 1] == Flags(s[..|s| - 1]);
    }
  }

  // ----- The segments of a maze as numbers on all positions -----

  /** 1 where the cell in column x of row y has a top wall. */
  ghost function LevelAt(g: Grid): (int, int) -> int
    requires Shape(g)
  {
    (x, y) => if 0 <= x < g.width && 0 <= y < g.height then Flag(Level(g, x, y)) else 0
  }

  /** 1 where there is an upright segment at lattice column x beside row y. */
  ghost function UprightAt(g: Grid): (int, int) -> int
    requires Shape(g)
  {
    (x, y) => if 0 <= x <= g.width && 0 <= y < g.height then Flag(Upright(g, x, y)) else 0
  }

  ghost function DegreeAt(g: Grid): (int, int) -> int
    requires Shape(g)
  {
    (x, y) => if 0 <= x <= g.width && 0 <= y < g.height then Degree(g, x, y) else 0
  }

  /** Along a row of lattice points every level segment is met at both ends. */
  lemma {:induction false} RowOfDegrees(g: Grid, x: nat, y: int)
    requires Shape(g) && 0 <= x <= g.width + 1 && 0 <= y < g.height
    ensures RowSum(DegreeAt(g), x, y)
            == RowSum(LevelAt(g), if x == 0 then 0 else x - 1, y) + RowSum(LevelAt(g), x, y)
               + RowSum(UprightAt(g), x, y) + RowSum(UprightAt(g), x, RowAbove(g, y))
  {
    if x == 0 {
    } else {
      RowOfDegrees(g, x - 1, y);
      hide Level, Upright;
      assert DegreeAt(g)(x - 1, y) == Degree(g, x - 1, y);
      assert LevelAt(g)(x - 1, y) == Flag(x - 1 < g.width && Level(g, x - 1, y));
      assert x >= 2 ==> LevelAt(g)(x - 2, y) == Flag(Level(g, x - 2, y));
    }
  }

  /** The sum over the rows above is the sum over the rows: the last row comes first. */
  lemma {:induction false} SumAbove(g: Grid, f: (int, int) -> int, up: (int, int) -> int, w: nat, y: nat)
    requires Shape(g) && 1 <= y <= g.height
    requires forall i, j {:trigger up(i, j)} :: 0 <= j < g.height ==> up(i, j) == f(i, RowAbove(g, j))
    ensures GridSum(up, w, y) == GridSum(f, w, y - 1) + RowSum(f, w, g.height - 1)
  {
    SameRow(up, f, w, y - 1, RowAbove(g, y - 1));
    if y == 1 {
    } else {
      SumAbove(g, f, up, w, y - 1);
    }
  }

  lemma {:induction false} SameRow(f: (int, int) -> int, h: (int, int) -> int, w: nat, y: int, z: int)
    requires forall i {:trigger f(i, y)} :: f(i, y) == h(i, z)
    ensures RowSum(f, w, y) == RowSum(h, w, z)
  {
    if w == 0 {
    } else {
      SameRow(f, h, w - 1, y, z);
    }
  }

  ghost function UprightAbove(g: Grid): (int, int) -> int
    requires Shape(g)
  {
    (x, y) => if 0 <= y < g.height then UprightAt(g)(x, RowAbove(g, y)) else 0
  }

  lemma {:induction false} GridOfDegrees(g: Grid, y: nat)
    requires Shape(g) && y <= g.height
    ensures GridSum(DegreeAt(g), g.width + 1, y)
            == 2 * GridSum(LevelAt(g), g.width, y) + GridSum(UprightAt(g), g.width + 1, y)
               + GridSum(UprightAbove(g), g.width + 1, y)
  {
    if y == 0 {
    } else {
      GridOfDegrees(g, y - 1);
      RowOfDegrees(g, g.width + 1, y - 1);
      SameRow(UprightAbove(g), UprightAt(g), g.width + 1, y - 1, RowAbove(g, y - 1));
      assert LevelAt(g)(g.width, y - 1) == 0;
    }
  }

  ghost function LeftAt(g: Grid): (int, int) -> int
    requires Shape(g)
  {
    (x, y) => if 0 <= x < g.width && 0 <= y < g.height then Flag(Upright(g, x, y)) else 0
  }

  ghost function LastAt(g: Grid): (int, int) -> int
    requires Shape(g)
  {
    (x, y) => if x == g.width - 1 && 0 <= y < g.height then Flag(Upright(g, g.width, y)) else 0
  }

  /** The segments beside a row: left walls, and the right wall of the last cell. */
  lemma {:induction false} RowOfUprights(g: Grid, x: nat, y: int)
    requires Shape(g) && x <= g.width && 0 <= y < g.height
    ensures RowSum(UprightAt(g), x, y) == RowSum(LeftAt(g), x, y)
    ensures RowSum(LastAt(g), x, y) == if x == g.width then Flag(Upright(g, g.width, y)) else 0
  {
    if x == 0 {
    } else {
      RowOfUprights(g, x - 1, y);
    }
  }

  lemma {:induction false} GridOfUprights(g: Grid, y: nat)
    requires Shape(g) && y <= g.height
    ensures GridSum(UprightAt(g), g.width + 1, y) == GridSum(LeftAt(g), g.width, y) + GridSum(LastAt(g), g.width, y)
  {
    if y == 0 {
    } else {
      GridOfUprights(g, y - 1);
      RowOfUprights(g, g.width, y - 1);
    }
  }

  lemma CellSegments(g: Grid, x: nat, y: nat)
    requires Shape(g) && x < g.width && y < g.height
    ensures var i := Index(g.width, x, y);
            && IsCell(g, i) && IsRightEdge(g, i) == (x == g.width - 1)
            && Level(g, x, y) == Wall(g, i, 0) && Upright(g, x, y) == Wall(g, i, 3)
            && (x == g.width - 1 ==> Upright(g, g.width, y) == Wall(g, i, 1))
  {
    AtIsCell(g, x, y);
    EdgeAt(g, x, y);
    assert Index(g.width, x, y) == At(g, x, y);
    hide IsRightEdge, Index;
  }

  /** The cell in column x of row y as the flags count it. */
  lemma CellFlags(g: Grid, x: nat, y: nat)
    requires Shape(g) && x < g.width && y < g.height
    ensures var i := Index(g.width, x, y);
            && i < |g.cells|
            && Flag(WallsAt(g.cells, 0)[i]) == LevelAt(g)(x, y) && Flag(WallsAt(g.cells, 3)[i]) == LeftAt(g)(x, y)
            && Flag(Both(WallsAt(g.cells, 1), RightEdges(g))[i]) == LastAt(g)(x, y)
  {
    CellSegments(g, x, y);
    hide Index, Level, Upright, IsRightEdge, Shape;
  }

  lemma TallyByRows(g: Grid, s: seq<bool>, f: (int, int) -> int)
    requires Shape(g) && |s| == |g.cells|
    requires forall x: nat, y: nat {:trigger Index(g.width, x, y)} :: x < g.width && y < g.height ==>
               Index(g.width, x, y) < |s| && Flag(s[Index(g.width, x, y)]) == f(x, y)
    ensures Tally(s) == GridSum(f, g.width, g.height)
  {
    TallyIsSum(s);
    hide Index;
    SumByRows(Flags(s), f, g.width, g.height);
  }

  /** Top walls, left walls, and right walls at the right edge, counted over the grid. */
  lemma WallsByRows(g: Grid)
    requires Shape(g)
    ensures Tally(WallsAt(g.cells, 0)) == GridSum(LevelAt(g), g.width, g.height)
    ensures Tally(WallsAt(g.cells, 3)) == GridSum(LeftAt(g), g.width, g.height)
    ensures Tally(Both(WallsAt(g.cells, 1), RightEdges(g))) == GridSum(LastAt(g), g.width, g.height)
  {
    hide Index, LevelAt, LeftAt, LastAt, WallsAt, RightEdges, Both;
    forall x: nat, y: nat | x < g.width && y < g.height
      ensures var i := Index(g.width, x, y);
              && i < |g.cells|
              && Flag(WallsAt(g.cells, 0)[i]) == LevelAt(g)(x, y) && Flag(WallsAt(g.cells, 3)[i]) == LeftAt(g)(x, y)
              && Flag(Both(WallsAt(g.cells, 1), RightEdges(g))[i]) == LastAt(g)(x, y)
    {
      CellFlags(g, x, y);
    }
    TallyByRows(g, WallsAt(g.cells, 0), LevelAt(g));
    TallyByRows(g, WallsAt(g.cells, 3), LeftAt(g));
    TallyByRows(g, Both(WallsAt(g.cells, 1), RightEdges(g)), LastAt(g));
  }

  lemma DegreesByRows(g: Grid)
    requires Shape(g)
    ensures Sum(Intersections(g)) == GridSum(DegreeAt(g), g.width + 1, g.height)
  {
    forall x: nat, y: nat | x < g.width + 1 && y < g.height && Index(g.width + 1, x, y) < |Intersections(g)|
      ensures Intersections(g)[Index(g.width + 1, x, y)] == DegreeAt(g)(x, y)
    {
      IntersectionAt(g, x, y);
    }
    SumByRows(Intersections(g), DegreeAt(g), g.width + 1, g.height);
  }

  /** The handshake law, for every matrix: m_CLIntersections adds up to twice the number of segments. */
  lemma TwoEnds(g: Grid)
    requires Shape(g)
    ensures Sum(Intersections(g)) == 2 * SegmentCount(g)
  {
    hide GridSum, Intersections, DegreeAt, LevelAt, LeftAt, LastAt;
    DegreesByRows(g);
    GridOfDegrees(g, g.height);
    UprightsAbove(g);
    GridOfUprights(g, g.height);
    WallsByRows(g);
  }

  lemma UprightsAbove(g: Grid)
    requires Shape(g)
    ensures GridSum(UprightAbove(g), g.width + 1, g.height) == GridSum(UprightAt(g), g.width + 1, g.height)
  {
    SumAbove(g, UprightAt(g), UprightAbove(g), g.width + 1, g.height);
  }
}
