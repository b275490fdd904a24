/** The integer route statistics of calculateMazeAndRouteStats. */
module RouteStatistics {
  import opened Cells
  import opened Counting
  import opened MazeGrid
  import opened WallState
  import opened RouteSearch

  function RowNumber(g: Grid, c: int): int
    requires Shape(g)
  {
    c / g.width
  }

  /** isLeftOf: c2 is the right-hand neighbour of c1 in the same row. */
  predicate IsLeftOf(g: Grid, c1: int, c2: int)
    requires Shape(g)
  {
    RowNumber(g, c1) == RowNumber(g, c2) && c1 == c2 - 1
  }

  /** Steps to the right along a route, against the way from entrance to exit. */
  function OpposingSteps(g: Grid, p: Route): nat
    requires Shape(g)
  {
    if |p| < 2 then 0
    else OpposingSteps(g, p[..|p| - 1]) + Flag(IsLeftOf(g, p[|p| - 2], p[|p| - 1]))
  }

  function LeftSteps(g: Grid, p: Route): nat
    requires Shape(g)
  {
    if |p| < 2 then 0
    else LeftSteps(g, p[..|p| - 1]) + Flag(IsLeftOf(g, p[|p| - 1], p[|p| - 2]))
  }

  /** How many cells of the route lie in row r. */
  function InRow(g: Grid, p: Route, r: int): nat
    requires Shape(g)
  {
    if p == [] then 0 else InRow(g, p[..|p| - 1], r) + Flag(RowNumber(g, p[|p| - 1]) == r)
  }

  function Sum(s: seq<int>): int {
    if s == [] then 0 else Sum(s[..|s| - 1]) + s[|s| - 1]
  }

  function Signs(s: seq<int>): seq<bool> {
    seq(|s|, i requires 0 <= i < |s| => s[i] > 0)
  }

  function Positives(s: seq<int>): nat {
    Tally(Signs(s))
  }

  /** m_vRowHistogram. */
  function Histogram(g: Grid, p: Route): seq<int>
    requires Shape(g)
  {
    seq(g.height, r => InRow(g, p, r))
  }

  /** m_iRowsUtilized. */
  function RowsUtilized(g: Grid, p: Route): nat
    requires Shape(g)
  {
    Positives(Histogram(g, p))
  }

  /** What one step does to the column and to the two step counters. */
  lemma StepColumn(g: Grid, a: int, b: int)
    requires Shape(g) && IsCell(g, a) && IsCell(g, b) && Step(g, a, b)
    ensures b % g.width == a % g.width + Flag(IsLeftOf(g, a, b)) - Flag(IsLeftOf(g, b, a))
    ensures !(IsLeftOf(g, a, b) && IsLeftOf(g, b, a))
  {
    var d: Side :| CanStep(g, a, d) && Neighbour(g, a, d) == b;
    CellAt(g, a);
    var x, y := a % g.width, a / g.width;
    NeighbourAt(g, x, y);
    if d == 1 { AtIsCell(g, x + 1, y); }
    else if d == 3 { AtIsCell(g, x - 1, y); }
    else { AtIsCell(g, x, if d == 0 then RowAbove(g, y) else RowBelow(g, y)); }
  }

  /** Left steps and opposing steps telescope to the difference of the end columns. */
  lemma {:induction false} ColumnsTelescope(g: Grid, p: Route)
    requires Shape(g) && IsWalk(g, p)
    ensures p[0] % g.width + OpposingSteps(g, p) == Last(p) % g.width + LeftSteps(g, p)
    ensures |p| >= 1 + LeftSteps(g, p) + OpposingSteps(g, p)
  {
    if |p| < 2 {
    } else {
      ColumnsTelescope(g, p[..|p| - 1]);
      StepColumn(g, p[|p| - 2], p[|p| - 1]);
    }
  }

  /** From a right-edge entrance to a left-edge exit: every opposing step costs a left step more,
      so a non-empty best route has at least width + 2 * opposing cells. */
  lemma BestRouteLength(g: Grid)
    requires Sound(g) && Bfs(g).best != []
    ensures LeftSteps(g, Bfs(g).best) == g.width - 1 + OpposingSteps(g, Bfs(g).best)
    ensures |Bfs(g).best| >= g.width + 2 * OpposingSteps(g, Bfs(g).best)
  {
    BestRouteIsShortest(g);
    ColumnsTelescope(g, Bfs(g).best);
    CellAt(g, g.entrance);
    EdgeAt(g, g.entrance % g.width, g.entrance / g.width);
  }

  lemma {:induction false} SumAddsPointwise(s: seq<int>, t: seq<int>, k: int)
    requires |s| == |t| && (forall r :: 0 <= r < |s| ==> t[r] == s[r] + Flag(r == k))
    ensures Sum(t) == Sum(s) + Flag(0 <= k < |s|)
  {
    if s == [] {
    } else {
      SumAddsPointwise(s[..|s| - 1], t[..|t| - 1], k);
    }
  }

  lemma {:induction false} SumOfZeros(s: seq<int>)
    requires forall r :: 0 <= r < |s| ==> s[r] == 0
    ensures Sum(s) == 0
  {
    if s == [] {
    } else {
      SumOfZeros(s[..|s| - 1]);
    }
  }

  /** The row histogram adds up to the length of the route. */
  lemma {:induction false} HistogramSum(g: Grid, p: Route)
    requires Shape(g) && forall i :: 0 <= i < |p| ==> IsCell(g, p[i])
    ensures Sum(Histogram(g, p)) == |p|
  {
    if p == [] {
      SumOfZeros(Histogram(g, p));
    } else {
      var q := p[..|p| - 1];
      HistogramSum(g, q);
      CellAt(g, p[|p| - 1]);
      SumAddsPointwise(Histogram(g, q), Histogram(g, p), RowNumber(g, p[|p| - 1]));
    }
  }

  lemma {:induction false} InRowCounts(g: Grid, p: Route, r: int)
    requires Shape(g)
    ensures InRow(g, p, r) == |set i | 0 <= i < |p| && p[i] / g.width == r|
  {
    if p == [] {
    } else {
      var n := |p| - 1;
      InRowCounts(g, p[..n], r);
      var a, b := set i | 0 <= i < |p| && p[i] / g.width == r, set i | 0 <= i < n && p[..n][i] / g.width == r;
      if p[n] / g.width == r {
        assert a == b + {n} && n !in b;
      } else {
        assert a == b;
      }
    }
  }

  /** Entry r of the histogram is the number of positions of the route that lie in row r. */
  lemma HistogramCounts(g: Grid, p: Route, r: int)
    requires Shape(g) && 0 <= r < g.height
    ensures |Histogram(g, p)| == g.height
    ensures Histogram(g, p)[r] == |set i | 0 <= i < |p| && p[i] / g.width == r|
  {
    InRowCounts(g, p, r);
  }

  /** The step to position i of the route goes dx cells to the right in the same row. */
  predicate GoesAcross(g: Grid, p: Route, i: int, dx: int)
    requires Shape(g) && 1 <= i < |p|
  {
    p[i] / g.width == p[i - 1] / g.width && p[i] == p[i - 1] + dx
  }

  ghost function Across(g: Grid, p: Route, dx: int): set<int>
    requires Shape(g)
  {
    set i | 1 <= i < |p| && GoesAcross(g, p, i, dx)
  }

  lemma AcrossGrows(g: Grid, p: Route, dx: int)
    requires Shape(g) && |p| >= 2
    ensures var n := |p| - 1; |Across(g, p, dx)| == |Across(g, p[..n], dx)| + Flag(GoesAcross(g, p, n, dx))
  {
    var n := |p| - 1;
    var a, b := Across(g, p, dx), Across(g, p[..n], dx);
    assert forall i :: 1 <= i < n ==> GoesAcross(g, p, i, dx) == GoesAcross(g, p[..n], i, dx);
    if GoesAcross(g, p, n, dx) {
      assert a == b + {n} && n !in b;
    } else {
      assert a == b;
    }
  }

  /** m_nOpposingSteps is the number of steps to the next cell of the same row. */
  lemma {:induction false} OpposingCounts(g: Grid, p: Route)
    requires Shape(g)
    ensures OpposingSteps(g, p) == |Across(g, p, 1)|
  {
    if |p| < 2 {
      assert Across(g, p, 1) == {};
    } else {
      OpposingCounts(g, p[..|p| - 1]);
      AcrossGrows(g, p, 1);
    }
  }

  /** The left steps are the steps to the cell before in the same row. */
  lemma {:induction false} LeftCounts(g: Grid, p: Route)
    requires Shape(g)
    ensures LeftSteps(g, p) == |Across(g, p, -1)|
  {
    if |p| < 2 {
      assert Across(g, p, -1) == {};
    } else {
      LeftCounts(g, p[..|p| - 1]);
      AcrossGrows(g, p, -1);
    }
  }

  ghost function Rows(g: Grid, p: Route): set<int>
    requires Shape(g)
  {
    set i | 0 <= i < |p| :: RowNumber(g, p[i])
  }

  lemma {:induction false} InRowPositive(g: Grid, p: Route, r: int)
    requires Shape(g)
    ensures InRow(g, p, r) > 0 <==> r in Rows(g, p)
  {
    if p == [] {
    } else {
      var q := p[..|p| - 1];
      InRowPositive(g, q, r);
      assert Rows(g, p) == Rows(g, q) + {RowNumber(g, p[|p| - 1])} by {
        assert forall i :: 0 <= i < |q| ==> q[i] == p[i];
      }
    }
  }

  lemma {:induction false} TallyAsSet(s: seq<bool>)
    ensures Tally(s) == |set r | 0 <= r < |s| && s[r]|
  {
    if s == [] {
    } else {
      var n := |s| - 1;
      TallyAsSet(s[..n]);
      var a, b := set r | 0 <= r < |s| && s[r], set r | 0 <= r < n && s[..n][r];
      if s[n] {
        assert a == b + {n} && n !in b;
      } else {
        assert a == b;
      }
    }
  }

  /** m_iRowsUtilized is the number of distinct rows the route runs through. */
  lemma RowsUtilizedIsDistinctRows(g: Grid, p: Route)
    requires Shape(g) && forall i :: 0 <= i < |p| ==> IsCell(g, p[i])
    ensures RowsUtilized(g, p) == |Rows(g, p)|
  {
    var s := Histogram(g, p);
    TallyAsSet(Signs(s));
    forall i | 0 <= i < |p| ensures 0 <= RowNumber(g, p[i]) < g.height {
      CellAt(g, p[i]);
    }
    forall r | 0 <= r < g.height ensures s[r] > 0 <==> r in Rows(g, p) {
      InRowPositive(g, p, r);
    }
    assert Rows(g, p) == set r | 0 <= r < |Signs(s)| && Signs(s)[r];
  }
}
