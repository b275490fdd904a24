/** shiftDown followed by a rebuild is a symmetry of the cylinder. */
module Rotation {
  import opened Cells
  import opened RowMajor
  import opened Counting
  import opened MazeGrid
  import opened WallState
  import opened RouteSearch
  import opened RouteSymmetry
  import opened RouteStatistics
  import opened Lattice

  /** The row k rows further down, with wrap-around. */
  function RowDown(g: Grid, y: int, k: int): int {
    if y + k < g.height then y + k else y + k - g.height
  }

  predicate ByRows(g: Grid, k: int) {
    Shape(g) && 0 <= k <= g.height
  }

  /** Where shiftDown(k) puts cell c. */
  function Moved(g: Grid, k: int, c: int): int
    requires Shape(g)
  {
    (c + k * g.width) % |g.cells|
  }

  /** The last k rows come first. */
  function Rotated<T>(s: seq<T>, n: nat): seq<T>
    requires n <= |s|
  {
    s[|s| - n..] + s[..|s| - n]
  }

  /** The maze rebuilt after shiftDown(k). */
  function Shifted(g: Grid, k: int): (h: Grid)
    requires ByRows(g, k)
    ensures Shape(h) && |h.cells| == |g.cells| && h.width == g.width && h.height == g.height
  {
    MulLe(k, g.height, g.width);
    MulLe(0, k, g.width);
    Grid(g.width, g.height, Moved(g, k, g.entrance), Moved(g, k, g.exit), Rotated(g.cells, k * g.width))
  }

  lemma RowDownInRange(g: Grid, y: int, k: int)
    requires ByRows(g, k) && 0 <= y < g.height
    ensures 0 <= RowDown(g, y, k) < g.height
    ensures RowDown(g, RowAbove(g, y), k) == RowAbove(g, RowDown(g, y, k))
    ensures RowDown(g, RowBelow(g, y), k) == RowBelow(g, RowDown(g, y, k))
  {
  }

  lemma MovedAt(g: Grid, k: int, x: int, y: int)
    requires ByRows(g, k) && 0 <= x < g.width && 0 <= y < g.height
    ensures IsCell(g, At(g, x, y)) && 0 <= RowDown(g, y, k) < g.height
    ensures Moved(g, k, At(g, x, y)) == At(g, x, RowDown(g, y, k))
    ensures IsCell(g, Moved(g, k, At(g, x, y)))
  {
    AtIsCell(g, x, y);
    AtIsCell(g, x, RowDown(g, y, k));
    MulLe(k, g.height, g.width);
    MulLe(0, k, g.width);
    var n := |g.cells|;
    assert At(g, x, y) + k * g.width == At(g, x, RowDown(g, y, k)) + if y + k < g.height then 0 else n;
    ModOnce(At(g, x, y) + k * g.width, n);
  }

  lemma MovedCell(g: Grid, k: int, c: int)
    requires ByRows(g, k) && IsCell(g, c)
    ensures IsCell(g, Moved(g, k, c))
    ensures Shifted(g, k).cells[Moved(g, k, c)] == g.cells[c]
    ensures Moved(g, k, c) == if c + k * g.width < |g.cells| then c + k * g.width else c + k * g.width - |g.cells|
  {
    MulLe(k, g.height, g.width);
    MulLe(0, k, g.width);
    ModOnce(c + k * g.width, |g.cells|);
  }

  /** The move is injective. */
  lemma MovedIsInjective(g: Grid, k: int, b: int, c: int)
    requires ByRows(g, k) && IsCell(g, b) && IsCell(g, c)
    ensures Moved(g, k, b) == Moved(g, k, c) <==> b == c
  {
    MovedCell(g, k, b);
    MovedCell(g, k, c);
  }

  /** The move commutes with all four neighbour functions. */
  lemma MovedNeighbour(g: Grid, k: int, c: int, d: Side)
    requires ByRows(g, k) && IsCell(g, c)
    ensures IsCell(g, Moved(g, k, c))
    ensures Neighbour(Shifted(g, k), Moved(g, k, c), d) ==
              if Neighbour(g, c, d) == -1 then -1 else Moved(g, k, Neighbour(g, c, d))
  {
    var h := Shifted(g, k);
    CellAt(g, c);
    var x, y := c % g.width, c / g.width;
    var z := RowDown(g, y, k);
    MovedAt(g, k, x, y);
    NeighbourAt(g, x, y);
    NeighbourAt(h, x, z);
    RowDownInRange(g, y, k);
    if d == 0 { MovedAt(g, k, x, RowAbove(g, y)); }
    else if d == 2 { MovedAt(g, k, x, RowBelow(g, y)); }
    else if d == 1 && x < g.width - 1 { MovedAt(g, k, x + 1, y); }
    else if d == 3 && x > 0 { MovedAt(g, k, x - 1, y); }
  }

  /** Entrance and exit are cells, so that they move along with them. */
  predicate Gated(g: Grid, k: int) {
    ByRows(g, k) && IsCell(g, g.entrance) && IsCell(g, g.exit)
  }

  lemma MovedCanStep(g: Grid, k: int, c: int, d: Side)
    requires Gated(g, k) && IsCell(g, c)
    ensures IsCell(g, Moved(g, k, c))
    ensures CanStep(Shifted(g, k), Moved(g, k, c), d) <==> CanStep(g, c, d)
  {
    MovedCell(g, k, c);
    MovedNeighbour(g, k, c, d);
    MovedIsInjective(g, k, c, g.entrance);
    MovedIsInjective(g, k, c, g.exit);
    if Neighbour(g, c, d) != -1 {
      NeighbourInvolution(g, c, d);
      MovedCell(g, k, Neighbour(g, c, d));
    }
  }

  /** Edge compatibility is kept. */
  lemma ShiftKeepsAgreement(g: Grid, k: int, c: int)
    requires ByRows(g, k) && IsCell(g, c) && AgreesAt(g, c)
    ensures IsCell(g, Moved(g, k, c)) && AgreesAt(Shifted(g, k), Moved(g, k, c))
  {
    var h := Shifted(g, k);
    MovedCell(g, k, c);
    forall d: Side ensures AgreesOn(h, Moved(g, k, c), d) {
      MovedNeighbour(g, k, c, d);
      assert AgreesOn(g, c, d);
      if Neighbour(g, c, d) != -1 {
        MovedCell(g, k, Neighbour(g, c, d));
      }
    }
  }

  lemma RotatedBack<T>(s: seq<T>, n: nat)
    requires n <= |s|
    ensures Rotated(Rotated(s, n), |s| - n) == s
  {
  }

  lemma ThereAndBack(c: int, m: int, n: int)
    requires 0 <= c < n && 0 <= m <= n
    ensures ((c + m) % n + (n - m)) % n == c
  {
    ModOnce(c + m, n);
    ModOnce((c + m) % n + (n - m), n);
  }

  lemma MovedBack(g: Grid, k: int, c: int)
    requires ByRows(g, k) && IsCell(g, c)
    ensures Moved(g, g.height - k, Moved(g, k, c)) == c
  {
    MulLe(k, g.height, g.width);
    MulLe(0, k, g.width);
    assert (g.height - k) * g.width == |g.cells| - k * g.width;
    ThereAndBack(c, k * g.width, |g.cells|);
  }

  /** shiftDown(height - k) undoes shiftDown(k). */
  lemma ShiftBack(g: Grid, k: int)
    requires Gated(g, k)
    ensures Shifted(Shifted(g, k), g.height - k) == g
  {
    MulLe(k, g.height, g.width);
    MulLe(0, k, g.width);
    assert (g.height - k) * g.width == |g.cells| - k * g.width;
    RotatedBack(g.cells, k * g.width);
    MovedBack(g, k, g.entrance);
    MovedBack(g, k, g.exit);
  }

  /** The move as a table. */
  function Moves(g: Grid, k: int): seq<int>
    requires Shape(g)
  {
    seq(|g.cells|, c => Moved(g, k, c))
  }

  lemma MovesArePermutation(g: Grid, k: int)
    requires ByRows(g, k)
    ensures var m := Moves(g, k);
            && (forall c :: 0 <= c < |m| ==> 0 <= m[c] < |m|)
            && (forall b, c :: 0 <= b < |m| && 0 <= c < |m| && m[b] == m[c] ==> b == c)
  {
    var m := Moves(g, k);
    forall c | 0 <= c < |m| ensures 0 <= m[c] < |m| {
      MovedCell(g, k, c);
    }
    forall b, c | 0 <= b < |m| && 0 <= c < |m| && m[b] == m[c] ensures b == c {
      MovedIsInjective(g, k, b, c);
    }
  }

  lemma SameStepMoved(g: Grid, k: int, c: int, d: Side)
    requires Gated(g, k) && IsCell(g, c)
    ensures IsCell(g, To(Moves(g, k), c)) && SameStep(g, Shifted(g, k), Moves(g, k), c, d)
  {
    MovedCanStep(g, k, c, d);
    MovedNeighbour(g, k, c, d);
    if CanStep(g, c, d) {
      NeighbourInvolution(g, c, d);
    }
  }

  lemma ShiftIsSymmetry(g: Grid, k: int)
    requires Gated(g, k)
    ensures Symmetry(g, Shifted(g, k), Moves(g, k))
  {
    var h, m := Shifted(g, k), Moves(g, k);
    MovesArePermutation(g, k);
    assert To(m, g.entrance) == m[g.entrance] && To(m, g.exit) == m[g.exit];
    forall c, d: Side | 0 <= c < |m| ensures SameStep(g, h, m, c, d) {
      SameStepMoved(g, k, c, d);
    }
  }

  /** Every route and the best route of the shifted maze are the old ones, cell by cell moved,
      and so are the visited cells. */
  lemma ShiftMovesRoutes(g: Grid, k: int)
    requires Gated(g, k)
    ensures IsCell(g, Moved(g, k, g.entrance))
    ensures Corresponds(Moves(g, k), Bfs(g), Bfs(Shifted(g, k)))
  {
    ShiftIsSymmetry(g, k);
    SymmetryMovesRoutes(g, Shifted(g, k), Moves(g, k));
  }

  // ----- The statistics are kept -----

  lemma RotatedUnvisited(s: seq<bool>, n: nat)
    requires n <= |s|
    ensures Unvisited(Rotated(s, n)) == Unvisited(s)
  {
    TallySwap(s, |s| - n);
  }

  lemma RotatedPositives(s: seq<int>, n: nat)
    requires n <= |s|
    ensures Positives(Rotated(s, n)) == Positives(s)
  {
    assert Signs(Rotated(s, n)) == Rotated(Signs(s), n);
    TallySwap(Signs(s), |s| - n);
  }

  lemma MovedByRotation<T>(g: Grid, k: int, s: seq<T>, t: seq<T>)
    requires ByRows(g, k) && |s| == |t| == |g.cells|
    requires forall c {:trigger Moved(g, k, c)} :: IsCell(g, c) ==>
               0 <= Moved(g, k, c) < |t| && t[Moved(g, k, c)] == s[c]
    ensures 0 <= k * g.width <= |s| && t == Rotated(s, k * g.width)
  {
    MulLe(k, g.height, g.width);
    MulLe(0, k, g.width);
    var n := |s| - k * g.width;
    forall i | 0 <= i < |t| ensures t[i] == Rotated(s, k * g.width)[i] {
      var c := if i < |s| - n then i + n else i - (|s| - n);
      MovedCell(g, k, c);
    }
  }

  /** The same number of cells is visited. */
  lemma ShiftKeepsVisitedCount(g: Grid, k: int)
    requires Gated(g, k)
    ensures IsCell(g, Moved(g, k, g.entrance))
    ensures Unvisited(Bfs(Shifted(g, k)).visited) == Unvisited(Bfs(g).visited)
  {
    ShiftMovesRoutes(g, k);
    var s, t := Bfs(g).visited, Bfs(Shifted(g, k)).visited;
    forall c | IsCell(g, c) ensures 0 <= Moved(g, k, c) < |t| && t[Moved(g, k, c)] == s[c] {
      assert To(Moves(g, k), c) == Moved(g, k, c);
    }
    MovedByRotation(g, k, s, t);
    RotatedUnvisited(s, k * g.width);
  }

  ghost predicate AllCells(g: Grid, p: Route) {
    forall i :: 0 <= i < |p| ==> IsCell(g, p[i])
  }

  lemma MovedRow(g: Grid, k: int, c: int)
    requires ByRows(g, k) && IsCell(g, c)
    ensures 0 <= RowNumber(g, c) < g.height && 0 <= c % g.width < g.width
    ensures Moved(g, k, c) == At(g, c % g.width, RowDown(g, RowNumber(g, c), k))
    ensures RowNumber(g, Moved(g, k, c)) == RowDown(g, RowNumber(g, c), k)
  {
    CellAt(g, c);
    MovedAt(g, k, c % g.width, c / g.width);
    AtIsCell(g, c % g.width, RowDown(g, c / g.width, k));
  }

  lemma MovedIsLeftOf(g: Grid, k: int, a: int, b: int)
    requires ByRows(g, k) && IsCell(g, a) && IsCell(g, b)
    ensures IsLeftOf(g, Moved(g, k, a), Moved(g, k, b)) == IsLeftOf(g, a, b)
  {
    MovedRow(g, k, a);
    MovedRow(g, k, b);
    CellAt(g, a);
    CellAt(g, b);
  }

  /** Opposing steps are kept. */
  lemma {:induction false} ShiftKeepsOpposingSteps(g: Grid, k: int, p: Route)
    requires ByRows(g, k) && AllCells(g, p)
    ensures OpposingSteps(Shifted(g, k), MovedRoute(Moves(g, k), p)) == OpposingSteps(g, p)
  {
    if |p| < 2 {
    } else {
      var q := p[..|p| - 1];
      ShiftKeepsOpposingSteps(g, k, q);
      assert MovedRoute(Moves(g, k), p)[..|p| - 1] == MovedRoute(Moves(g, k), q);
      MovedIsLeftOf(g, k, p[|p| - 2], p[|p| - 1]);
    }
  }

  lemma {:induction false} InMovedRow(g: Grid, k: int, p: Route, r: int)
    requires ByRows(g, k) && AllCells(g, p) && 0 <= r < g.height
    ensures InRow(Shifted(g, k), MovedRoute(Moves(g, k), p), RowDown(g, r, k)) == InRow(g, p, r)
  {
    if p == [] {
    } else {
      var q := p[..|p| - 1];
      InMovedRow(g, k, q, r);
      assert MovedRoute(Moves(g, k), p)[..|p| - 1] == MovedRoute(Moves(g, k), q);
      MovedRow(g, k, p[|p| - 1]);
    }
  }

  /** The row histogram rotates, so the number of rows utilized is kept. */
  lemma ShiftRotatesHistogram(g: Grid, k: int, p: Route)
    requires ByRows(g, k) && AllCells(g, p)
    ensures Histogram(Shifted(g, k), MovedRoute(Moves(g, k), p)) == Rotated(Histogram(g, p), k)
    ensures RowsUtilized(Shifted(g, k), MovedRoute(Moves(g, k), p)) == RowsUtilized(g, p)
  {
    var s, t := Histogram(g, p), Histogram(Shifted(g, k), MovedRoute(Moves(g, k), p));
    var n := g.height - k;
    forall i | 0 <= i < g.height ensures t[i] == Rotated(s, k)[i] {
      var r := if i < k then i + n else i - k;
      InMovedRow(g, k, p, r);
    }
    assert t == Rotated(s, k);
    RotatedPositives(s, k);
  }

  lemma ShiftKeepsDegree(g: Grid, k: int, x: int, y: int)
    requires ByRows(g, k) && 0 <= x <= g.width && 0 <= y < g.height
    ensures 0 <= RowDown(g, y, k) < g.height
    ensures Degree(Shifted(g, k), x, RowDown(g, y, k)) == Degree(g, x, y)
  {
    RowDownInRange(g, y, k);
    if x < g.width { ShiftKeepsSegments(g, k, x, y); }
    if x > 0 { ShiftKeepsSegments(g, k, x - 1, y); }
    ShiftKeepsSegments(g, k, if x < g.width then x else x - 1, RowAbove(g, y));
  }

  lemma ShiftKeepsSegments(g: Grid, k: int, x: int, y: int)
    requires ByRows(g, k) && 0 <= x < g.width && 0 <= y < g.height
    ensures 0 <= RowDown(g, y, k) < g.height
    ensures Level(Shifted(g, k), x, RowDown(g, y, k)) == Level(g, x, y)
    ensures Upright(Shifted(g, k), x, RowDown(g, y, k)) == Upright(g, x, y)
    ensures Upright(Shifted(g, k), g.width, RowDown(g, y, k)) == Upright(g, g.width, y)
  {
    MovedAt(g, k, x, y);
    MovedCell(g, k, At(g, x, y));
    MovedAt(g, k, g.width - 1, y);
    MovedCell(g, k, At(g, g.width - 1, y));
  }

  lemma IntersectionsShifted(g: Grid, k: int, v: int)
    requires ByRows(g, k)
    ensures v in Intersections(g) <==> v in Intersections(Shifted(g, k))
  {
    hide Intersections, Degree, CornerCell, At;
    var h := Shifted(g, k);
    if v in Intersections(g) {
      var i :| 0 <= i < |Intersections(g)| && Intersections(g)[i] == v;
      var x, y := PointOf(g, i);
      ShiftKeepsDegree(g, k, x, y);
      IntersectionAt(h, x, RowDown(g, y, k));
    }
    if v in Intersections(h) {
      var i :| 0 <= i < |Intersections(h)| && Intersections(h)[i] == v;
      var x, z := PointOf(h, i);
      var y := if z >= k then z - k else z - k + g.height;
      ShiftKeepsDegree(g, k, x, y);
      IntersectionAt(g, x, y);
    }
  }

  /** m_minIntersections is kept. */
  lemma ShiftKeepsMinIntersections(g: Grid, k: int)
    requires ByRows(g, k)
    ensures Least(Intersections(Shifted(g, k))) == Least(Intersections(g))
  {
    IntersectionsShifted(g, k, Least(Intersections(g)));
    IntersectionsShifted(g, k, Least(Intersections(Shifted(g, k))));
  }

  /** Rebuilding after shiftDown gives the same integer statistics. */
  lemma ShiftKeepsStatistics(g: Grid, k: int)
    requires Gated(g, k)
    ensures IsCell(g, Moved(g, k, g.entrance))
    ensures var p, q := Bfs(g).best, Bfs(Shifted(g, k)).best;
            && |q| == |p|
            && RowsUtilized(Shifted(g, k), q) == RowsUtilized(g, p)
            && OpposingSteps(Shifted(g, k), q) == OpposingSteps(g, p)
  {
    ShiftMovesRoutes(g, k);
    BestRouteIsShortest(g);
    ShiftRotatesHistogram(g, k, Bfs(g).best);
    ShiftKeepsOpposingSteps(g, k, Bfs(g).best);
  }
}
