/** The class MZ: a maze object with its cell matrix and everything derived from it. */
module MazeEngine {
  import opened Cells
  import opened RowMajor
  import opened Counting
  import opened MazeGrid
  import opened WallState
  import opened RouteSearch
  import opened RouteStatistics
  import opened EscapeSearch
  import opened Lattice
  import opened Drawing
  import opened Generation
  import opened Repair
  import opened OpenCylinder
  import opened Rotation
  import opened MazeLoading
  import opened Segments

  /** BIG_NUMBER, the side of the drawing buffer. */
  const BIG_NUMBER: int := 100

  /** The greatest value of rand(). */
  const RAND_MAX: int := 32767

  /** The dimensions for which the drawing fits its buffer. */
  predicate FitsBuffer(w: int, h: int) {
    w >= 1 && h >= 1 && 2 * w + 1 <= BIG_NUMBER && h + 1 <= BIG_NUMBER
  }

  /** m_vRoutes after erasing the given positions. */
  ghost function Unerased(routes: seq<Route>, erase: seq<int>): seq<Route> {
    if routes == [] then []
    else
      var n := |routes| - 1;
      Unerased(routes[..n], erase) + if n in erase then [] else [routes[n]]
  }

  lemma {:induction false} EraseNone(routes: seq<Route>, erase: seq<int>)
    requires forall e :: e in erase ==> e >= |routes|
    ensures Unerased(routes, erase) == routes
  {
    if routes == [] {
    } else {
      EraseNone(routes[..|routes| - 1], erase);
    }
  }

  /** Positions past the end do not matter. */
  lemma {:induction false} EraseBeyond(routes: seq<Route>, erase: seq<int>, e: int)
    requires e >= |routes|
    ensures Unerased(routes, erase + [e]) == Unerased(routes, erase)
  {
    if routes == [] {
    } else {
      EraseBeyond(routes[..|routes| - 1], erase, e);
    }
  }

  /** Erasing from the highest position to the lowest: every position is still valid when its
      turn comes. */
  lemma {:induction false} EraseLower(routes: seq<Route>, e: int, erase: seq<int>)
    requires 0 <= e < |routes| && forall f :: f in erase ==> f > e
    ensures |Unerased(routes, erase)| > e
    ensures Unerased(routes, [e] + erase) == Unerased(routes, erase)[..e] + Unerased(routes, erase)[e + 1..]
  {
    var n := |routes| - 1;
    var rest := Unerased(routes[..n], erase);
    if e == n {
      EraseNone(routes[..n], erase);
      EraseNone(routes[..n], [e] + erase);
    } else {
      EraseLower(routes[..n], e, erase);
    }
  }

  type ShapedGrid = g: Grid | Shape(g)
    ghost witness Grid(1, 1, 0, 0, [Walls(false, false, false, false)])

  /** A maze whose drawing fits the buffer. */
  type BufferedGrid = g: ShapedGrid | FitsBuffer(g.width, g.height)
    ghost witness Grid(1, 1, 0, 0, [Walls(false, false, false, false)])

  /** The mazes the generator goes through. */
  type SoundMaze = g: BufferedGrid | Sound(g)
    ghost witness (
    SmallestIsSound();
    Grid(1, 1, 0, 0, [Walls(false, false, false, false)]))

  function WithCell(g: BufferedGrid, c: int, w: Walls): BufferedGrid
    requires IsCell(g, c)
  {
    g.(cells := g.cells[c := w])
  }

  /** The remainder of C++, with the sign of the dividend. */
  function Remainder(a: int, n: int): (r: int)
    requires n > 0
    ensures a >= 0 ==> r == a % n
  {
    if a >= 0 then a % n else -(-a % n)
  }

  method Rand() returns (r: int)
    ensures 0 <= r <= RAND_MAX
  {
    r :| 0 <= r <= RAND_MAX;
  }

  /** The block repeated for each side: extend the route by an unvisited neighbour, note once that
      the route was extended, and keep the first route that ends at the exit. */
  method VisitNeighbour(s: Search, route: Route, nb: int, exit: int, i: int, erase: seq<int>, extended: bool)
    returns (t: Search, erase': seq<int>, extended': bool)
    requires 0 <= nb < |s.visited|
    ensures t == if s.visited[nb] then s
                 else Search(s.routes + [route + [nb]], s.visited[nb := true], s.found || nb == exit,
                             if !s.found && nb == exit then route + [nb] else s.best)
    ensures extended' == (extended || !s.visited[nb])
    ensures erase' == if extended' && !extended then erase + [i] else erase
  {
    t, erase', extended' := s, erase, extended;
    if !s.visited[nb] {
      var longer := route + [nb];
      t := t.(routes := t.routes + [longer], visited := t.visited[nb := true]);
      if !extended {
        erase' := erase + [i];
        extended' := true;
      }
      if !t.found && nb == exit {
        t := t.(found := true, best := longer);
      }
    }
  }

  /** One side of the last cell: an open side is looked up, at index -1 with an exception. */
  method LookSide(s: Search, route: Route, d: Side, open: bool, nb: int, exit: int, i: int, erase: seq<int>,
                  extended: bool, ghost g: BufferedGrid)
    returns (thrown: bool, t: Search, erase': seq<int>, extended': bool)
    requires Fits(g, s) && EndsInGrid(g, route) && exit == g.exit
    requires nb == Neighbour(g, Last(route), d) && (open <==> Opening(g, Last(route), d))
    ensures thrown <==> open && nb == -1
    ensures !thrown ==> t == Look(g, s, route, d)
    ensures !thrown ==> extended' == (extended || |t.routes| > |s.routes|)
    ensures !thrown ==> erase' == if extended' && !extended then erase + [i] else erase
  {
    thrown, t, erase', extended' := false, s, erase, extended;
    if open {
      if nb == -1 {
        thrown := true;
      } else {
        NeighbourInvolution(g, Last(route), d);
        t, erase', extended' := VisitNeighbour(s, route, nb, exit, i, erase, extended);
      }
    }
  }

  /** The four blocks for the last cell of route i. */
  method LookAtSides(s: Search, i: int, erase: seq<int>, code: cchar, top: int, right: int, bottom: int, left: int,
                     entrance: int, exit: int, ghost g: BufferedGrid)
    returns (thrown: bool, t: Search, erase': seq<int>)
    requires Fits(g, s) && 0 <= i < |s.routes| && EndsInGrid(g, s.routes[i])
    requires entrance == g.entrance && exit == g.exit && Decode(code) == g.cells[Last(s.routes[i])]
    requires top == Neighbour(g, Last(s.routes[i]), 0) && right == Neighbour(g, Last(s.routes[i]), 1)
    requires bottom == Neighbour(g, Last(s.routes[i]), 2) && left == Neighbour(g, Last(s.routes[i]), 3)
    ensures thrown <==> Escapes(g, Last(s.routes[i]))
    ensures !thrown ==> t == LookAround(g, s, s.routes[i], 4)
    ensures !thrown ==> erase' == if |t.routes| > |s.routes| then erase + [i] else erase
  {
    var route := s.routes[i];
    var cell := Last(route);
    EscapesBySides(g, cell);
    var extended := false;
    thrown, t, erase', extended := LookSide(s, route, 0, !HasTopWall(code), top, exit, i, erase, extended, g);
    assert t == LookAround(g, s, route, 1);
    thrown, t, erase', extended :=
      LookSide(t, route, 1, !HasRightWall(code) && cell != entrance, right, exit, i, erase', extended, g);
    if thrown { return; }
    assert t == LookAround(g, s, route, 2);
    thrown, t, erase', extended := LookSide(t, route, 2, !HasBottomWall(code), bottom, exit, i, erase', extended, g);
    assert t == LookAround(g, s, route, 3);
    thrown, t, erase', extended :=
      LookSide(t, route, 3, !HasLeftWall(code) && cell != exit, left, exit, i, erase', extended, g);
  }

  lemma EscapesBySides(g: Grid, c: int)
    requires Shape(g) && IsCell(g, c)
    ensures Neighbour(g, c, 0) != -1 && Neighbour(g, c, 2) != -1
    ensures Escapes(g, c) <==>
              (Opening(g, c, 1) && Neighbour(g, c, 1) == -1) || (Opening(g, c, 3) && Neighbour(g, c, 3) == -1)
  {
    NeighboursAreCells(g, c);
  }

  /** One pass over the first n routes seen from the class: the old routes in front, the new ones
      behind them, and the positions to erase. */
  ghost predicate IsSweep(g: Grid, s: Search, n: nat, t: Search, erase: seq<int>) {
    && Fits(g, s) && AllEndInGrid(g, s.routes) && n <= |s.routes|
    && var (kept, s1) := Sweep(g, s.routes, n, s.(routes := []));
       t == s1.(routes := s.routes + s1.routes) && kept == Unerased(s.routes[..n], erase)
       && (erase == [] <==> s1.routes == [])
  }

  ghost predicate Positions(erase: seq<int>, n: int) {
    && (forall i :: 0 <= i < |erase| ==> 0 <= erase[i] < n)
    && (forall i, j :: 0 <= i < j < |erase| ==> erase[i] < erase[j])
  }

  lemma {:induction false} LookAroundBehind(g: Grid, s: Search, front: seq<Route>, route: Route, d: nat)
    requires d <= 4 && Fits(g, s) && EndsInGrid(g, route)
    ensures var t := LookAround(g, s, route, d);
            LookAround(g, s.(routes := front + s.routes), route, d) == t.(routes := front + t.routes)
  {
    if d == 0 {
    } else {
      LookAroundBehind(g, s, front, route, d - 1);
      var t := LookAround(g, s, route, d - 1);
      var c := Last(route);
      if CanStep(g, c, d - 1) {
        NeighbourInvolution(g, c, d - 1);
        var longer := route + [Neighbour(g, c, d - 1)];
        assert (front + t.routes) + [longer] == front + (t.routes + [longer]);
      }
    }
  }

  lemma PositionsAppend(erase: seq<int>, n: nat)
    requires Positions(erase, n)
    ensures Positions(erase, n + 1) && Positions(erase + [n], n + 1)
  {
  }

  lemma SweepNone(g: Grid, s: Search)
    requires Fits(g, s) && AllEndInGrid(g, s.routes)
    ensures IsSweep(g, s, 0, s, [])
  {
    assert s.routes[..0] == [] && s.routes + [] == s.routes;
  }

  lemma SweepOne(g: Grid, s: Search, n: nat, t: Search, erase: seq<int>)
    requires IsSweep(g, s, n, t, erase) && n < |s.routes| && Positions(erase, n)
    ensures s.routes <= t.routes && Fits(g, t) && t.routes[n] == s.routes[n]
    ensures var u := LookAround(g, t, s.routes[n], 4);
            var erase' := if |u.routes| > |t.routes| then erase + [n] else erase;
            IsSweep(g, s, n + 1, u, erase') && Positions(erase', n + 1)
  {
    var s1 := Sweep(g, s.routes, n, s.(routes := [])).1;
    LookAroundBehind(g, s1, s.routes, s.routes[n], 4);
    PositionsAppend(erase, n);
    assert s.routes[..n + 1][..n] == s.routes[..n];
    EraseBeyond(s.routes[..n], erase, n);
    EraseOnly(s.routes[..n + 1], erase, n);
  }

  /** Position n is kept by a list of smaller positions and dropped when it is added. */
  lemma EraseOnly(routes: seq<Route>, erase: seq<int>, n: nat)
    requires |routes| == n + 1 && Positions(erase, n)
    ensures Unerased(routes, erase) == Unerased(routes[..n], erase) + [routes[n]]
    ensures Unerased(routes, erase + [n]) == Unerased(routes[..n], erase + [n])
  {
  }

  /** Erasing the noted positions from the highest to the lowest leaves exactly the routes of the
      next round, in order. */
  method EraseRoutes(routes: seq<Route>, erase: seq<int>, ghost old': seq<Route>, ghost added: seq<Route>)
    returns (routes': seq<Route>)
    requires routes == old' + added && Positions(erase, |old'|)
    ensures routes' == Unerased(old', erase) + added
  {
    routes' := routes;
    assert erase[|erase|..] == [];
    EraseNone(old', []);
    for e := |erase| downto 0
      invariant routes' == Unerased(old', erase[e..]) + added
    {
      assert erase[e..] == [erase[e]] + erase[e + 1..];
      EraseLower(old', erase[e], erase[e + 1..]);
      ghost var before := Unerased(old', erase[e + 1..]);
      assert routes' == before + added;
      routes' := routes'[..erase[e]] + routes'[erase[e] + 1..];
      assert routes' == before[..erase[e]] + before[erase[e] + 1..] + added;
    }
    assert erase[0..] == erase;
  }

  /** The positions owned by the first n cells are decided. */
  ghost predicate PaintedUpTo(g: Grid, canvas: array2<int>, n: int)
    reads canvas
  {
    && Shape(g) && canvas.Length0 == BIG_NUMBER && canvas.Length1 == BIG_NUMBER
    && FitsBuffer(g.width, g.height)
    && forall x, y :: InDrawing(g, x, y) ==> (canvas[x, y] == 1 <==> Drawn(g, x, y) && Owner(g, x, y) < n)
  }

  ghost predicate IsPainted(g: Grid, canvas: array2<int>)
    reads canvas
  {
    && Shape(g) && canvas.Length0 == BIG_NUMBER && canvas.Length1 == BIG_NUMBER
    && FitsBuffer(g.width, g.height)
    && forall x, y :: InDrawing(g, x, y) ==> (canvas[x, y] == 1 <==> Drawn(g, x, y))
  }

  lemma NothingPainted(g: Grid, canvas: array2<int>)
    requires Shape(g) && FitsBuffer(g.width, g.height)
    requires canvas.Length0 == BIG_NUMBER && canvas.Length1 == BIG_NUMBER
    requires forall x, y :: 0 <= x < BIG_NUMBER && 0 <= y < BIG_NUMBER ==> canvas[x, y] == 0
    ensures PaintedUpTo(g, canvas, 0)
  {
    forall x, y | InDrawing(g, x, y) ensures canvas[x, y] == 1 <==> Drawn(g, x, y) && Owner(g, x, y) < 0 {
      if Drawn(g, x, y) { OwnersAreCells(g, x, y); }
    }
  }

  lemma AllPainted(g: Grid, canvas: array2<int>)
    requires PaintedUpTo(g, canvas, |g.cells|)
    ensures IsPainted(g, canvas)
  {
    forall x, y | InDrawing(g, x, y) ensures canvas[x, y] == 1 <==> Drawn(g, x, y) {
      if Drawn(g, x, y) { OwnersAreCells(g, x, y); }
    }
  }

  /** One cell's marks on the drawing buffer. */
  method MarkCell(canvas: array2<int>, i: int, c: cchar, width: int, totalCells: int, ghost g: BufferedGrid)
    requires PaintedUpTo(g, canvas, i) && IsCell(g, i) && Decode(c) == g.cells[i]
    requires width == g.width && totalCells == |g.cells|
    modifies canvas
    ensures PaintedUpTo(g, canvas, i + 1)
  {
    ghost var col, row := i % width, i / width;
    CellAt(g, i);
    DrawingColumns(g, col, row);
    var xOdd := (2 * i + 1) % (width * 2);
    var xEven := (2 * i) % (width * 2);
    var y := i / width;
    if HasTopWall(c) {
      canvas[xOdd, y] := 1;
    }
    if i >= totalCells - width && HasBottomWall(c) {
      canvas[xOdd, y + 1] := 1;
    }
    if HasLeftWall(c) {
      canvas[xEven, y + 1] := 1;
    }
    if (i + 1) % width == 0 && HasRightWall(c) {
      canvas[xEven + 2, y + 1] := 1;
    }
    forall x, y | InDrawing(g, x, y) ensures canvas[x, y] == 1 <==> Drawn(g, x, y) && Owner(g, x, y) < i + 1 {
      MarksAreDrawn(g, i, col, row, x, y);
      assert canvas[x, y] == if Marks(g, i, col, row, x, y) then 1 else old(canvas[x, y]);
    }
  }

  /** The buffer copied row by row. */
  method CopyDrawing(canvas: array2<int>, widthVisual: int, heightVisual: int, ghost g: BufferedGrid,
                     ghost s: seq<bool>)
    returns (visual: seq<bool>)
    requires IsPainted(g, canvas) && IsVisual(g, s)
    requires widthVisual == 2 * g.width + 1 && heightVisual == g.height + 1
    ensures visual == s
  {
    visual := [];
    for y := 0 to heightVisual
      invariant |visual| == y * widthVisual <= |s| && visual == s[..|visual|]
    {
      ghost var base := |visual|;
      assert (y + 1) * widthVisual == base + widthVisual;
      MulLe(y + 1, heightVisual, widthVisual);
      for x := 0 to widthVisual
        invariant |visual| == base + x <= |s| && visual == s[..|visual|]
      {
        assert InDrawing(g, x, y) && s[base + x] == Drawn(g, x, y);
        visual := visual + [canvas[x, y] == 1];
      }
    }
  }

  /** The number of segments at one lattice point, looked up in the drawing. */
  method CountAt(visual: seq<bool>, width: int, height: int, x: int, y: int, ghost g: BufferedGrid) returns (n: int)
    requires Shape(g) && width == g.width && height == g.height && IsVisual(g, visual)
    requires 0 <= x <= width && 0 <= y < height
    ensures n == Degree(g, x, y)
  {
    hide Level, Upright, IsVisual;
    n := 0;
    var size := (height + 1) * (2 * width + 1);
    var visualIndex := 2 * x + y * (2 * width + 1);
    SegmentsInVisual(g, visual, x, y, 2 * width + 1, size, visualIndex);
    var leftNei := visualIndex - 1;
    var rightNei := visualIndex + 1;
    var topNei := (visualIndex - (2 * width + 1) + size) % size;
    var bottomNei := (visualIndex + (2 * width + 1)) % size;
    if x != 0 {
      n := n + Flag(visual[leftNei]);
    }
    if x != width {
      n := n + Flag(visual[rightNei]);
    }
    n := n + Flag(visual[bottomNei]);
    if y == 0 {
      n := n + Flag(visual[topNei]);
    }
    n := n + Flag(visual[visualIndex]);
  }

  method NextCount(visual: seq<bool>, width: int, height: int, x: int, y: int, counts: seq<int>, least: int,
                   ghost g: BufferedGrid, ghost s: seq<int>) returns (counts': seq<int>, least': int)
    requires Shape(g) && width == g.width && height == g.height && IsVisual(g, visual)
    requires 0 <= x <= width && 0 <= y < height && |counts| < |s| && s[|counts|] == Degree(g, x, y)
    requires counts == s[..|counts|] && least == Least(counts)
    ensures |counts'| == |counts| + 1 && counts' == s[..|counts'|] && least' == Least(counts')
  {
    var n := CountAt(visual, width, height, x, y, g);
    LeastAppend(counts, n);
    counts' := counts + [n];
    least' := if n < least then n else least;
  }

  /** The counts of all lattice points, row by row, and the least of them (at most 5). */
  method CountIntersections(visual: seq<bool>, width: int, height: int, ghost g: BufferedGrid, ghost s: seq<int>)
    returns (counts: seq<int>, least: int)
    requires Shape(g) && width == g.width && height == g.height && IsVisual(g, visual) && IsIntersections(g, s)
    ensures counts == s && least == Least(counts)
  {
    counts, least := [], 5;
    for y := 0 to height
      invariant |counts| == y * (width + 1) <= |s| && counts == s[..|counts|] && least == Least(counts)
    {
      ghost var base := |counts|;
      assert (y + 1) * (width + 1) == base + (width + 1);
      MulLe(y + 1, height, width + 1);
      for x := 0 to width + 1
        invariant |counts| == base + x <= |s| && counts == s[..|counts|] && least == Least(counts)
      {
        assert s[base + x] == Degree(g, x, y);
        counts, least := NextCount(visual, width, height, x, y, counts, least, g, s);
      }
    }
  }

  /** The cells up and left of the lattice points without segments, where there is such a cell. */
  method ListProblems(counts: seq<int>, width: int, ghost g: BufferedGrid) returns (problems: seq<int>)
    requires Shape(g) && width == g.width
    ensures problems == ProblemsUpTo(g, counts, |counts|)
  {
    problems := [];
    for i := 0 to |counts|
      invariant problems == ProblemsUpTo(g, counts, i)
    {
      if counts[i] == 0 {
        var cellID := (i / (width + 1) - 1) * width + (i % (width + 1) - 1);
        if cellID >= 0 {
          problems := problems + [cellID];
        }
      }
    }
  }

  /** m_vRowHistogram: one count per row, raised for every cell of the route. */
  method CountRows(route: Route, width: int, height: int, ghost g: Grid) returns (counts: seq<int>)
    requires Shape(g) && width == g.width && height == g.height
    requires forall i :: 0 <= i < |route| ==> IsCell(g, route[i])
    ensures counts == Histogram(g, route)
  {
    counts := [];
    for i := 0 to height
      invariant counts == seq(i, r => 0)
    {
      counts := counts + [0];
    }
    assert route[..0] == [] && counts == Histogram(g, []);
    for i := 0 to |route|
      invariant counts == Histogram(g, route[..i])
    {
      CellAt(g, route[i]);
      assert route[..i + 1][..i] == route[..i];
      var r := route[i] / width;
      counts := counts[r := counts[r] + 1];
    }
    assert route[..|route|] == route;
  }

  method CountUsed(counts: seq<int>) returns (n: nat)
    ensures n == Positives(counts)
  {
    n := 0;
    for i := 0 to |counts|
      invariant n == Positives(counts[..i])
    {
      assert Signs(counts[..i + 1])[..i] == Signs(counts[..i]);
      n := n + if counts[i] > 0 then 1 else 0;
    }
    assert counts[..|counts|] == counts;
  }

  method CountOpposing(route: Route, width: int, ghost g: Grid) returns (n: nat)
    requires Shape(g) && width == g.width
    ensures n == OpposingSteps(g, route)
  {
    n := 0;
    var i := 1;
    while i < |route|
      invariant 1 <= i && (i <= |route| || route == [])
      invariant n == if route == [] then 0 else OpposingSteps(g, route[..i])
    {
      assert route[..i + 1][..i] == route[..i];
      var previousCell := route[i - 1];
      n := n + if previousCell / width == route[i] / width && previousCell == route[i] - 1 then 1 else 0;
      i := i + 1;
    }
    assert route[..|route|] == route;
  }

  class MZ {
    var mzString: seq<cchar>
    var width: int
    var widthVisual: int
    var height: int
    var heightVisual: int
    var totalCells: int
    var nTries: int
    var nWalls: int
    var maxWalls: int
    var entrance: int
    var exit: int
    var minIntersections: int
    var nVisited: int
    var rowsUtilized: int
    var opposingSteps: int
    var allReachable: bool
    var matrix: seq<CL>
    var visual: seq<bool>
    var intersections: seq<int>
    var wallCount: seq<int>
    var routes: seq<Route>
    var visited: seq<bool>
    var bestRoute: Route
    var rowHistogram: seq<int>
    var problems: seq<int>

    constructor ()
      ensures width == widthVisual == height == heightVisual == totalCells == 0
      ensures mzString == [] && matrix == []
    {
      width, widthVisual, height, heightVisual, totalCells := 0, 0, 0, 0, 0;
      mzString, matrix := [], [];
    }

    ghost predicate Sized()
      reads this`width, this`widthVisual, this`height, this`heightVisual, this`totalCells
    {
      && FitsBuffer(width, height)
      && totalCells == width * height && widthVisual == 2 * width + 1 && heightVisual == height + 1
    }

    ghost predicate Distinct()
      reads this`matrix
    {
      forall i, j :: 0 <= i < j < |matrix| ==> matrix[i] != matrix[j]
    }

    /** The object has the dimensions and gates of g and one cell object for each cell. */
    ghost predicate LaidOut(g: ShapedGrid)
      reads this`width, this`widthVisual, this`height, this`heightVisual, this`totalCells
      reads this`entrance, this`exit, this`matrix
    {
      && width == g.width && height == g.height && entrance == g.entrance && exit == g.exit
      && totalCells == |g.cells| == |matrix|
      && widthVisual == 2 * width + 1 && heightVisual == height + 1
      && Distinct()
    }

    /** g is the maze of this object as a value. */
    ghost predicate Shows(g: ShapedGrid)
      reads this`width, this`widthVisual, this`height, this`heightVisual, this`totalCells
      reads this`entrance, this`exit, this`matrix, matrix
    {
      LaidOut(g) && forall i :: 0 <= i < |matrix| ==> g.cells[i] == Decode(matrix[i].code)
    }

    /** Besides, both characters of every cell are wall characters and agree. */
    ghost predicate Holds(g: BufferedGrid)
      reads this`width, this`widthVisual, this`height, this`heightVisual, this`totalCells
      reads this`entrance, this`exit, this`matrix, matrix
    {
      LaidOut(g) && forall i :: 0 <= i < |matrix| ==>
        matrix[i].code == Encode(g.cells[i]) && matrix[i].readable == ToHuman(matrix[i].code)
    }

    method InitializeCLMatrix()
      requires 0 <= totalCells <= |mzString|
      modifies this`matrix
      ensures |matrix| == totalCells && Distinct() && forall i :: 0 <= i < |matrix| ==> fresh(matrix[i])
      ensures forall i :: 0 <= i < totalCells ==>
                matrix[i].code == ToInternal(mzString[i]) && matrix[i].readable == mzString[i]
    {
      matrix := [];
      for i := 0 to totalCells
        invariant |matrix| == i && Distinct() && forall i :: 0 <= i < |matrix| ==> fresh(matrix[i])
        invariant forall j :: 0 <= j < i ==>
                    matrix[j].code == ToInternal(mzString[j]) && matrix[j].readable == mzString[j]
      {
        var cell := new CL(mzString[i]);
        matrix := matrix + [cell];
      }
    }

    method UpdateMZString()
      requires |matrix| == totalCells
      modifies this`mzString
      ensures |mzString| == totalCells && forall i :: 0 <= i < totalCells ==> mzString[i] == matrix[i].readable
    {
      mzString := [];
      for i := 0 to totalCells
        invariant |mzString| == i && forall j :: 0 <= j < i ==> mzString[j] == matrix[j].readable
      {
        mzString := mzString + [matrix[i].readable];
      }
    }

    method UpdateWallCount(ghost g: BufferedGrid)
      requires Shows(g)
      modifies this`wallCount
      ensures wallCount == WallCounts(g)
    {
      wallCount := [];
      MulLe(0, height, width);
      for i := 0 to totalCells
        invariant wallCount == WallCounts(g)[..i]
      {
        var count := 0;
        count := count + if HasTopWall(matrix[i].code) then 1 else 0;
        count := count + if HasRightWall(matrix[i].code) then 1 else 0;
        count := count + if HasBottomWall(matrix[i].code) then 1 else 0;
        count := count + if HasLeftWall(matrix[i].code) then 1 else 0;
        wallCount := wallCount + [count];
      }
    }

    /** The four comparisons checkEdgeCompatibility makes for one cell. */
    method CellAgrees(i: int, ghost g: ShapedGrid) returns (agrees: bool)
      requires Shows(g) && 0 <= i < totalCells
      ensures Shape(g) && (agrees <==> AgreesAt(g, i))
    {
      agrees := true;
      NeighboursAre(i, g);
      AgreesBySides(g, i);
      if !IsLeftEdge(i) {
        agrees := agrees && HasLeftWall(matrix[i].code) == HasRightWall(matrix[NeighbourLeft(i)].code);
      }
      assert agrees <==> AgreesOn(g, i, 3);
      if !IsRightEdge(i) {
        agrees := agrees && HasRightWall(matrix[i].code) == HasLeftWall(matrix[NeighbourRight(i)].code);
      }
      assert agrees <==> AgreesOn(g, i, 3) && AgreesOn(g, i, 1);
      agrees := agrees && HasTopWall(matrix[i].code) == HasBottomWall(matrix[NeighbourTop(i)].code);
      assert agrees <==> AgreesOn(g, i, 3) && AgreesOn(g, i, 1) && AgreesOn(g, i, 0);
      agrees := agrees && HasBottomWall(matrix[i].code) == HasTopWall(matrix[NeighbourBottom(i)].code);
    }

    /** checkEdgeCompatibility decides exactly whether shared segments agree. */
    method CheckEdgeCompatibility(ghost g: ShapedGrid) returns (compatible: bool)
      requires Shows(g)
      ensures Shape(g) && (compatible <==> EdgesAgree(g))
    {
      compatible := true;
      MulLe(0, height, width);
      for i := 0 to totalCells
        invariant compatible <==> forall c {:trigger AgreesAt(g, c)} :: 0 <= c < i ==> AgreesAt(g, c)
      {
        var agrees := CellAgrees(i, g);
        compatible := compatible && agrees;
      }
    }

    function NeighbourTop(c: int): int
      requires totalCells > 0
      reads this`width, this`totalCells
    {
      (c - width + totalCells) % totalCells
    }

    function NeighbourBottom(c: int): int
      requires totalCells > 0
      reads this`width, this`totalCells
    {
      (c + width) % totalCells
    }

    function NeighbourRight(c: int): int
      requires width > 0
      reads this`width
    {
      if IsRightEdge(c) then -1 else c + 1
    }

    function NeighbourLeft(c: int): int
      requires width > 0
      reads this`width
    {
      if IsLeftEdge(c) then -1 else c - 1
    }

    predicate IsLeftEdge(c: int)
      requires width > 0
      reads this`width
    {
      c % width == 0
    }

    predicate IsRightEdge(c: int)
      requires width > 0
      reads this`width
    {
      (c + 1) % width == 0
    }

    /** The object's neighbour functions are those of its grid. */
    lemma NeighboursAre(c: int, g: ShapedGrid)
      requires Shows(g) && 0 <= c < totalCells
      ensures Shape(g) && IsCell(g, c)
      ensures NeighbourTop(c) == Neighbour(g, c, 0) && NeighbourRight(c) == Neighbour(g, c, 1)
      ensures NeighbourBottom(c) == Neighbour(g, c, 2) && NeighbourLeft(c) == Neighbour(g, c, 3)
      ensures 0 <= NeighbourTop(c) < totalCells && 0 <= NeighbourBottom(c) < totalCells
      ensures IsRightEdge(c) || NeighbourRight(c) < totalCells
      ensures IsLeftEdge(c) || 0 <= NeighbourLeft(c)
    {
      VerticalRemainders(g, c);
      NeighboursAreCells(g, c);
    }

    /** The drawing buffer after all cells have made their marks. */
    method PaintCells(ghost g: BufferedGrid) returns (canvas: array2<int>)
      requires Shows(g)
      ensures IsPainted(g, canvas)
    {
      canvas := new int[BIG_NUMBER, BIG_NUMBER]((x, y) => 0);
      NothingPainted(g, canvas);
      MulLe(0, height, width);
      for i := 0 to totalCells
        invariant fresh(canvas) && canvas.Length0 == BIG_NUMBER && canvas.Length1 == BIG_NUMBER
        invariant PaintedUpTo(g, canvas, i)
      {
        MarkCell(canvas, i, matrix[i].code, width, totalCells, g);
      }
      AllPainted(g, canvas);
    }

    method UpdateVisual(ghost g: BufferedGrid)
      requires Shows(g)
      modifies this`visual
      ensures Shape(g) && visual == Visual(g)
    {
      var canvas := PaintCells(g);
      VisualIsVisual(g);
      visual := CopyDrawing(canvas, widthVisual, heightVisual, g, Visual(g));
    }

    method UpdateIntersections(ghost g: BufferedGrid)
      requires Shows(g)
      requires Shape(g) && visual == Visual(g)
      modifies this`intersections, this`minIntersections, this`problems
      ensures intersections == Intersections(g) && minIntersections == Least(intersections)
      ensures problems == Problems(g)
    {
      VisualIsVisual(g);
      IntersectionsAreIntersections(g);
      var counts, least := CountIntersections(visual, width, height, g, Intersections(g));
      var cells := ListProblems(counts, width, g);
      intersections, minIntersections, problems := counts, least, cells;
    }

    /** The pass over one route: it throws exactly if a side of its last cell would be looked up
        at index -1, and otherwise does what LookAround says. */
    method ExpandRoute(s: Search, i: int, erase: seq<int>, ghost g: BufferedGrid)
      returns (thrown: bool, t: Search, erase': seq<int>)
      requires Shows(g) && Fits(g, s) && 0 <= i < |s.routes| && EndsInGrid(g, s.routes[i])
      ensures thrown <==> Escapes(g, Last(s.routes[i]))
      ensures !thrown ==> t == LookAround(g, s, s.routes[i], 4)
      ensures !thrown ==> erase' == if |t.routes| > |s.routes| then erase + [i] else erase
    {
      var cell := Last(s.routes[i]);
      NeighboursAre(cell, g);
      thrown, t, erase' :=
        LookAtSides(s, i, erase, matrix[cell].code, NeighbourTop(cell), NeighbourRight(cell),
                    NeighbourBottom(cell), NeighbourLeft(cell), entrance, exit, g);
    }

    method SweepStep(s: Search, i: nat, t: Search, erase: seq<int>, ghost g: BufferedGrid)
      returns (thrown: bool, t': Search, erase': seq<int>)
      requires Shows(g) && Shape(g) && i < |s.routes|
      requires IsSweep(g, s, i, t, erase) && Positions(erase, i)
      ensures EndsInGrid(g, s.routes[i]) && (thrown <==> Escapes(g, Last(s.routes[i])))
      ensures !thrown ==> IsSweep(g, s, i + 1, t', erase') && Positions(erase', i + 1)
    {
      SweepOne(g, s, i, t, erase);
      thrown, t', erase' := ExpandRoute(t, i, erase, g);
    }

    /** The passes over all routes known at the start of a round. */
    method SweepRoutes(s: Search, ghost g: BufferedGrid) returns (thrown: bool, t: Search, erase: seq<int>)
      requires Shows(g) && Shape(g) && Fits(g, s) && AllEndInGrid(g, s.routes)
      ensures thrown <==> exists i :: 0 <= i < |s.routes| && Escapes(g, Last(s.routes[i]))
      ensures !thrown ==> IsSweep(g, s, |s.routes|, t, erase) && Positions(erase, |s.routes|)
    {
      thrown, t, erase := false, s, [];
      SweepNone(g, s);
      for i := 0 to |s.routes|
        invariant !thrown && IsSweep(g, s, i, t, erase) && Positions(erase, i)
        invariant forall j :: 0 <= j < i ==> !Escapes(g, Last(s.routes[j]))
      {
        thrown, t, erase := SweepStep(s, i, t, erase, g);
        if thrown { return; }
      }
    }

    /** One round: the passes, followed by the erasures. */
    method SearchRound(s: Search, ghost g: BufferedGrid) returns (thrown: bool, more: bool, t: Search)
      requires Shows(g) && Shape(g) && Fits(g, s) && AllEndInGrid(g, s.routes)
      ensures thrown <==> exists i :: 0 <= i < |s.routes| && Escapes(g, Last(s.routes[i]))
      ensures !thrown ==> (more, t) == Round(g, s)
    {
      var erase;
      thrown, t, erase := SweepRoutes(s, g);
      if thrown { more := false; return; }
      more := erase != [];
      ghost var (kept, s1) := Sweep(g, s.routes, |s.routes|, s.(routes := []));
      assert s.routes[..|s.routes|] == s.routes;
      var kept' := EraseRoutes(t.routes, erase, s.routes, s1.routes);
      t := t.(routes := kept');
    }

    /** The rounds, until one extends nothing. */
    method SearchRounds(start: Search, ghost g: BufferedGrid) returns (thrown: bool, s: Search, ghost rounds: nat)
      requires Shows(g) && Shape(g) && IsCell(g, entrance) && start == Start(g)
      ensures thrown <==> Throws(g)
      ensures !thrown ==> s == Bfs(g) && rounds == Rounds(g, start)
      ensures rounds <= |g.cells|
    {
      thrown, s, rounds := false, start, 0;
      SearchStarts(g);
      AtMostOneRoundPerCell(g);
      var more := true;
      while more
        invariant !thrown && if more then Searching(g, s) else Completed(g, s)
        invariant rounds + (if more then Rounds(g, s) else 0) == Rounds(g, start)
        decreases more, Unvisited(s.visited)
      {
        ghost var before := s;
        rounds := rounds + 1;
        thrown, more, s := SearchRound(s, g);
        if thrown {
          SearchThrows(g, before);
          return;
        }
        SearchContinues(g, before);
      }
      CompletedNeverThrows(g, s);
    }

    method OnlyEntranceVisited(ghost g: BufferedGrid) returns (marks: seq<bool>)
      requires Shows(g) && 0 <= entrance < totalCells
      ensures Shape(g) && marks == Start(g).visited
    {
      marks := [];
      for i := 0 to totalCells
        invariant |marks| == i && forall j :: 0 <= j < i ==> marks[j] == (j == entrance)
      {
        marks := marks + [i == entrance];
      }
    }

    /** updateRoutes: everything it derives is the outcome of the search over the grid, unless it
        looks up a cell that does not exist. */
    method UpdateRoutes(ghost g: BufferedGrid) returns (thrown: bool)
      requires Shows(g)
      modifies this`routes, this`visited, this`bestRoute, this`nVisited, this`allReachable
      ensures Shape(g) && (thrown <==> Throws(g))
      ensures !thrown ==> RoutesAre(g)
    {
      thrown := false;
      MulLe(0, height, width);
      if !(0 <= entrance < totalCells) {
        thrown := true;
        return;
      }
      var marks := OnlyEntranceVisited(g);
      var s;
      ghost var rounds;
      thrown, s, rounds := SearchRounds(Search([[entrance]], marks, false, []), g);
      if thrown { return; }
      routes, visited, bestRoute := s.routes, s.visited, s.best;
      CountVisited();
    }

    /** The route fields are the outcome of the search over g. */
    ghost predicate RoutesAre(g: Grid)
      reads this`routes, this`visited, this`bestRoute, this`nVisited, this`allReachable
    {
      && Shape(g) && IsCell(g, g.entrance)
      && routes == Bfs(g).routes && visited == Bfs(g).visited && bestRoute == Bfs(g).best
      && nVisited == Tally(visited) && allReachable == (nVisited == |g.cells|)
    }

    /** The visited cells are counted and compared with all cells. */
    method CountVisited()
      requires |visited| == totalCells
      modifies this`nVisited, this`allReachable
      ensures nVisited == Tally(visited) && allReachable == (nVisited == totalCells)
    {
      nVisited := 0;
      assert visited[..totalCells] == visited;
      for i := 0 to totalCells
        invariant nVisited == Tally(visited[..i])
      {
        assert visited[..i + 1][..i] == visited[..i];
        nVisited := nVisited + if visited[i] then 1 else 0;
      }
      allReachable := nVisited == totalCells;
    }

    ghost predicate StringUpdated()
      reads this`mzString, this`matrix, matrix
    {
      |mzString| == |matrix| && forall i :: 0 <= i < |matrix| ==> mzString[i] == matrix[i].readable
    }

    /** The drawing fields are those of g. */
    ghost predicate DrawingIs(g: Grid)
      reads this`visual, this`intersections, this`minIntersections, this`problems, this`wallCount
    {
      && Shape(g) && visual == Visual(g)
      && intersections == Intersections(g) && minIntersections == Least(intersections)
      && problems == Problems(g) && wallCount == WallCounts(g)
    }

    /** Everything derived is what the matrix says: the state after every updateVectors call. */
    ghost predicate SyncedTo(g: BufferedGrid)
      reads this, matrix
    {
      Shows(g) && DrawingIs(g) && RoutesAre(g) && StringUpdated()
    }

    /** updateVectors rebuilds everything that is derived from the matrix. */
    method UpdateVectors(ghost g: BufferedGrid) returns (thrown: bool)
      requires Shows(g)
      modifies this`visual, this`intersections, this`minIntersections, this`problems, this`wallCount,
        this`routes, this`visited, this`bestRoute, this`nVisited, this`allReachable, this`mzString
      ensures Shape(g) && (thrown <==> Throws(g))
      ensures thrown || SyncedTo(g)
    {
      UpdateDrawing(g);
      thrown := UpdateSearchAndString(g);
    }

    method UpdateSearchAndString(ghost g: BufferedGrid) returns (thrown: bool)
      requires Shows(g)
      modifies this`routes, this`visited, this`bestRoute, this`nVisited, this`allReachable, this`mzString
      ensures Shows(g) && Shape(g) && (thrown <==> Throws(g))
      ensures !thrown ==> RoutesAre(g) && StringUpdated()
    {
      thrown := UpdateRoutes(g);
      if thrown { return; }
      UpdateMZString();
    }

    method UpdateDrawing(ghost g: BufferedGrid)
      requires Shows(g)
      modifies this`visual, this`intersections, this`minIntersections, this`problems, this`wallCount
      ensures Shows(g) && DrawingIs(g)
    {
      hide Visual, Intersections, Problems, Least, WallCounts;
      UpdateVisual(g);
      UpdateIntersections(g);
      UpdateWallCount(g);
    }

    /** m_CLMatrix.at(c).addWallAtSide(d), where the bit is absent. */
    method AddWall(c: int, d: Side, ghost g: BufferedGrid)
      requires Holds(g) && IsCell(g, c) && !g.cells[c].Has(d)
      modifies matrix[c]
      ensures Holds(WithCell(g, c, g.cells[c].Set(d, true)))
    {
      WithWallSets(g.cells[c], d);
      matrix[c].AddWallAtSide(d);
      assert forall i :: 0 <= i < |matrix| && i != c ==> matrix[i] != matrix[c];
    }

    /** m_CLMatrix.at(c).removeWallAt(d), where the bit is present. */
    method RemoveWall(c: int, d: Side, ghost g: BufferedGrid)
      requires Holds(g) && IsCell(g, c) && g.cells[c].Has(d)
      modifies matrix[c]
      ensures Holds(WithCell(g, c, g.cells[c].Set(d, false)))
    {
      WithoutWallClears(g.cells[c], d);
      matrix[c].RemoveWallAt(d);
      assert forall i :: 0 <= i < |matrix| && i != c ==> matrix[i] != matrix[c];
    }

    /** m_CLMatrix.at(c).addRandomWall() on a cell with fewer than four walls. */
    method AddRandomSide(c: int, ghost g: BufferedGrid) returns (d: Side)
      requires Holds(g) && IsCell(g, c) && g.cells[c].Count() < 4
      modifies matrix[c]
      ensures !g.cells[c].Has(d)
      ensures Holds(WithCell(g, c, g.cells[c].Set(d, true)))
    {
      d := matrix[c].AddRandomWall();
      WithWallSets(g.cells[c], d);
      assert forall i :: 0 <= i < |matrix| && i != c ==> matrix[i] != matrix[c];
    }

    /** The branches of addRandomWall and removeWallAt that find the cell across a side. */
    method CellAcross(c: int, d: int, ghost g: BufferedGrid) returns (nb: int)
      requires Shows(g) && 0 <= c < totalCells && -1 <= d < 4
      ensures Shape(g)
      ensures if d == -1 then nb == -1 else nb == Neighbour(g, c, d) && (nb == -1 || 0 <= nb < totalCells)
    {
      NeighboursAre(c, g);
      nb := -1;
      if d == 0 {
        nb := (c - width + totalCells) % totalCells;
      } else if (c + 1) % width != 0 && d == 1 {
        nb := c + 1;
      } else if d == 2 {
        nb := (c + width) % totalCells;
      } else if c % width != 0 && d == 3 {
        nb := c - 1;
      }
    }

    /** Taking a segment's two walls away again restores the grid. */
    method RemoveBoth(c: int, d: Side, nb: int, ghost g: BufferedGrid)
      requires IsCell(g, c) && IsCell(g, nb) && nb == Neighbour(g, c, d)
      requires AgreesAt(g, c) && !Wall(g, c, d) && Holds(AddSegment(g, c, d))
      modifies matrix
      ensures Holds(g)
    {
      hide EdgesAgree, BoundaryWalled;
      ghost var h := AddSegment(g, c, d);
      AddThenRemove(g, c, d);
      AddSegmentWalls(g, c, d, c, d);
      AddSegmentWalls(g, c, d, nb, Opposite(d));
      RemoveWall(c, d, h);
      h := WithCell(h, c, h.cells[c].Set(d, false));
      RemoveWall(nb, (d + 2) % 4, h);
      h := WithCell(h, nb, h.cells[nb].Set(Opposite(d), false));
      assert h == g;
    }

    /** A wall just added towards the outside is taken away again. */
    method RemoveOutside(cell: int, side: Side, ghost g: BufferedGrid)
      requires IsCell(g, cell)
      requires !g.cells[cell].Has(side) && Holds(WithCell(g, cell, g.cells[cell].Set(side, true)))
      modifies matrix[cell]
      ensures Holds(g)
    {
      ghost var h := WithCell(g, cell, g.cells[cell].Set(side, true));
      RemoveWall(cell, side, h);
      ClearSet(g.cells[cell], side);
      assert WithCell(h, cell, h.cells[cell].Set(side, false)) == g;
    }

    /** addRandomWall up to its updateVectors call: pick a side of the cell, add the wall there and
        across, and take both away again if the other cell then has too many. `early` is the return
        before updateVectors, after a wall towards the outside was taken away again. */
    method PlaceWall(cell: int, ghost g: SoundMaze)
      returns (early: bool, succeeded: bool, side: int, ghost h: SoundMaze)
      requires Holds(g) && 0 <= cell < totalCells && 1 <= maxWalls <= 3
      modifies matrix
      ensures Holds(h)
      ensures early <==> 0 <= side < 4 && Neighbour(g, cell, side) == -1
      ensures early ==> !succeeded
      ensures succeeded == Added(g, h, cell, side, maxWalls) && Tried(g, h, cell, side, maxWalls)
      ensures !succeeded ==> h == g
    {
      early, succeeded, side, h := false, false, -1, g;
      NotAdded(g, cell, side, maxWalls);
      if NumberOfWalls(matrix[cell].code) < maxWalls {
        side := AddRandomSide(cell, g);
        early, succeeded, h := KeepIfInside(cell, side, g);
      }
    }

    /** The wall just added is taken away if it looks outside, and mirrored otherwise. */
    method KeepIfInside(cell: int, side: Side, ghost g: SoundMaze)
      returns (early: bool, succeeded: bool, ghost h: SoundMaze)
      requires IsCell(g, cell)
      requires !g.cells[cell].Has(side) && Holds(WithCell(g, cell, g.cells[cell].Set(side, true)))
      requires g.cells[cell].Count() < maxWalls
      modifies matrix
      ensures Holds(h)
      ensures early <==> Neighbour(g, cell, side) == -1
      ensures early ==> !succeeded
      ensures succeeded == Added(g, h, cell, side, maxWalls) && Tried(g, h, cell, side, maxWalls)
      ensures !succeeded ==> h == g
    {
      early := (IsRightEdge(cell) && side == 1) || (IsLeftEdge(cell) && side == 3);
      if early {
        RemoveOutside(cell, side, g);
        NotAdded(g, cell, side, maxWalls);
        succeeded, h := false, g;
      } else {
        NeighboursAreCells(g, cell);
        succeeded, h := WallAcross(cell, side, g);
      }
    }

    /** The second half: the same wall on the cell across. */
    method WallAcross(cell: int, side: Side, ghost g: SoundMaze) returns (succeeded: bool, ghost h: SoundMaze)
      requires IsCell(g, cell)
      requires !g.cells[cell].Has(side) && Holds(WithCell(g, cell, g.cells[cell].Set(side, true)))
      requires g.cells[cell].Count() < maxWalls && Neighbour(g, cell, side) != -1
      modifies matrix
      ensures Holds(h)
      ensures succeeded == Added(g, h, cell, side, maxWalls) && Tried(g, h, cell, side, maxWalls)
      ensures !succeeded ==> h == g
    {
      hide EdgesAgree, BoundaryWalled;
      var nb := CellAcross(cell, side, WithCell(g, cell, g.cells[cell].Set(side, true)));
      AddMirrored(cell, side, nb, g);
      AddKeepsSound(g, cell, side);
      h := AddSegment(g, cell, side);
      succeeded := NumberOfWalls(matrix[nb].code) <= maxWalls;
      if succeeded {
        FewEnough(g, cell, side, maxWalls);
      } else {
        RemoveBoth(cell, side, nb, g);
        h := g;
        NotAdded(g, cell, side, maxWalls);
      }
    }

    method AddMirrored(cell: int, side: Side, nb: int, ghost g: SoundMaze)
      requires IsCell(g, cell)
      requires !g.cells[cell].Has(side) && Holds(WithCell(g, cell, g.cells[cell].Set(side, true)))
      requires nb == Neighbour(g, cell, side) && IsCell(g, nb)
      modifies matrix[nb]
      ensures AgreesAt(g, cell) && Holds(AddSegment(g, cell, side))
    {
      assert AgreesAt(g, cell) && AgreesOn(g, cell, side);
      AddWall(nb, (side + 2) % 4, WithCell(g, cell, g.cells[cell].Set(side, true)));
    }

    /** mzString is the readable form of g. */
    ghost predicate IsString(g: Grid)
      reads this`mzString
    {
      mzString == Rendered(g)
    }

    /** What every updateVectors call of the generator leaves: a sound coded matrix that everything
        derived agrees with. */
    ghost predicate Current(g: SoundMaze)
      reads this`width, this`widthVisual, this`height, this`heightVisual, this`totalCells
      reads this`entrance, this`exit, this`matrix, matrix, this`mzString
      reads this`visual, this`intersections, this`minIntersections, this`problems, this`wallCount
      reads this`routes, this`visited, this`bestRoute, this`nVisited, this`allReachable
    {
      Holds(g) && DrawingIs(g) && RoutesAre(g) && IsString(g)
    }

    /** updateVectors on a sound maze: no exception, and all cells reachable is decided exactly. */
    method UpdateSound(ghost g: SoundMaze)
      requires Holds(g)
      modifies this`visual, this`intersections, this`minIntersections, this`problems, this`wallCount,
        this`routes, this`visited, this`bestRoute, this`nVisited, this`allReachable, this`mzString
      ensures Current(g) && (allReachable <==> AllReachable(g))
    {
      SoundNeverThrows(g);
      var thrown := UpdateVectors(g);
      assert !thrown;
      StringIs(g);
      AllReachableIffAllVisited(g);
    }

    lemma StringIs(g: BufferedGrid)
      requires Holds(g) && StringUpdated()
      ensures IsString(g)
    {
      forall i | 0 <= i < |matrix| ensures mzString[i] == ToHuman(Encode(g.cells[i])) {
        SixteenCodes(matrix[i].code);
      }
    }

    lemma ReachableIsDecided(g: SoundMaze)
      requires Current(g)
      ensures allReachable <==> AllReachable(g)
    {
      AllReachableIffAllVisited(g);
    }

    /** addRandomWall: adds one whole segment or leaves the matrix as it was. `draw` is what rand()
        gives for the cell. */
    method AddRandomWall(draw: int, ghost g: SoundMaze)
      returns (succeeded: bool, cell: int, side: int, ghost h: SoundMaze)
      requires Current(g) && 1 <= maxWalls <= 3 && 0 <= draw <= RAND_MAX
      modifies this`nWalls, matrix, this`visual, this`intersections, this`minIntersections, this`problems,
        this`wallCount, this`routes, this`visited, this`bestRoute, this`nVisited, this`allReachable, this`mzString
      ensures Current(h) && cell == draw % |g.cells|
      ensures succeeded == Added(g, h, cell, side, maxWalls) && Tried(g, h, cell, side, maxWalls)
      ensures !succeeded ==> h == g
      ensures nWalls == old(nWalls) + Flag(succeeded)
    {
      hide Bfs, Visual, Intersections, Problems, Least, WallCounts, Rendered, Added, Tried;
      hide EdgesAgree, BoundaryWalled, Neighbour;
      var early;
      cell := PickCell(draw, g);
      early, succeeded, side, h := PlaceWall(cell, g);
      if early {
        h := g;
        return;
      }
      CountAndUpdate(succeeded, h);
    }

    method CountAndUpdate(succeeded: bool, ghost h: SoundMaze)
      requires Holds(h)
      modifies this`nWalls, this`visual, this`intersections, this`minIntersections, this`problems,
        this`wallCount, this`routes, this`visited, this`bestRoute, this`nVisited, this`allReachable, this`mzString
      ensures Current(h) && nWalls == old(nWalls) + Flag(succeeded)
    {
      if succeeded {
        nWalls := nWalls + 1;
      }
      UpdateSound(h);
    }

    /** rand() % m_totalCells. */
    method PickCell(draw: int, ghost g: BufferedGrid) returns (cell: int)
      requires Holds(g)
      ensures 0 <= cell < totalCells && cell == draw % |g.cells|
    {
      MulLe(1, height, width);
      cell := draw % totalCells;
    }

    /** removeWallAt(cell, side) after the segment was added to g: g is restored. */
    method RemoveWallAt(cell: int, side: int, ghost g: SoundMaze, ghost h: SoundMaze)
      requires Added(g, h, cell, side, maxWalls) && Current(h)
      modifies this`nWalls, matrix, this`visual, this`intersections, this`minIntersections, this`problems,
        this`wallCount, this`routes, this`visited, this`bestRoute, this`nVisited, this`allReachable, this`mzString
      ensures Current(g) && nWalls == old(nWalls) - 1
    {
      hide Sound, Added, DrawingIs, RoutesAre, IsString;
      TakeAway(cell, side, g, h);
      nWalls := nWalls - 1;
      UpdateSound(g);
    }

    method TakeAway(cell: int, side: int, ghost g: SoundMaze, ghost h: BufferedGrid)
      requires Added(g, h, cell, side, maxWalls) && Holds(h)
      modifies matrix
      ensures Holds(g)
    {
      assert AgreesAt(g, cell);
      var neighbour := CellAcross(cell, side, h);
      RemoveBoth(cell, side, neighbour, g);
    }

    /** One iteration of the generator: add a wall, test, undo. Every cell stays reachable. */
    method TryWall(ghost g: SoundMaze) returns (ghost h: SoundMaze)
      requires Current(g) && AllReachable(g) && 1 <= maxWalls <= 3 && Conserved(g, nWalls)
      modifies this`nWalls, matrix, this`visual, this`intersections, this`minIntersections, this`problems,
        this`wallCount, this`routes, this`visited, this`bestRoute, this`nVisited, this`allReachable, this`mzString
      ensures Current(h) && AllReachable(h) && Conserved(h, nWalls)
      ensures h == g.(cells := h.cells) && Turn(g, h, maxWalls)
      ensures AtMost(g, maxWalls) ==> AtMost(h, maxWalls)
    {
      hide Current, AllReachable, Conserved, AtMost, Added, Tried, Sound, Holds;
      var succeeded, cell, side;
      var draw := Rand();
      succeeded, cell, side, h := AddRandomWall(draw, g);
      ReachableIsDecided(h);
      ghost var m := h;
      if succeeded { AddedKeeps(g, h, cell, side, maxWalls, old(nWalls)); }
      if !allReachable {
        RemoveWallAt(cell, side, g, h);
        h := g;
      }
      TurnIs(g, m, h, cell, side, maxWalls);
    }

    /** addRandomEntrance: a random row's right-edge cell, and right walls on all others. `draw` is what
        rand() gives. */
    method AddRandomEntrance(draw: int, ghost g: BufferedGrid) returns (ghost h: BufferedGrid)
      requires 0 <= draw <= RAND_MAX
      requires Holds(g) && nWalls == 0 && FramedUpTo(g, 0, 0) && TotalWalls(g.cells) == 0
      modifies this`entrance, this`nWalls, matrix
      ensures Holds(h) && h.width == g.width && h.height == g.height && h.exit == g.exit
      ensures EndsRow(h.width, h.entrance, draw % h.height)
      ensures IsCell(h, h.entrance) && MazeGrid.IsRightEdge(h, h.entrance)
      ensures FramedUpTo(h, |h.cells|, 0) && nWalls == h.height - 1 == TotalWalls(h.cells)
    {
      hide FramedUpTo, TotalWalls, MazeGrid.IsRightEdge;
      var row := PickRow(draw);
      entrance := row * width + (width - 1);
      h := g.(entrance := entrance);
      FrameRightStarts(g, entrance);
      h := FrameRightEdge(row, h);
      NextRightEdge(h, row);
    }

    method FrameRightEdge(row: int, ghost g: BufferedGrid) returns (ghost h: BufferedGrid)
      requires Holds(g) && 0 <= row < g.height && EndsRow(g.width, g.entrance, row)
      requires nWalls == 0 && FramedUpTo(g, g.width - 1, 0) && TotalWalls(g.cells) == 0
      modifies this`nWalls, matrix
      ensures Holds(h) && h == g.(cells := h.cells)
      ensures FramedUpTo(h, |h.cells|, 0) && nWalls == g.height - 1 == TotalWalls(h.cells)
    {
      hide FramedUpTo, TotalWalls, StartsRow, EndsRow;
      FirstRow(width);
      h := g;
      var i := width - 1;
      ghost var j := 0;
      while i < totalCells
        invariant Holds(h) && h == g.(cells := h.cells) && FramedUpTo(h, i, 0)
        invariant 0 <= j <= g.height && EndsRow(g.width, i, j)
        invariant nWalls == TotalWalls(h.cells) == j - Flag(row < j)
        decreases g.height - j
      {
        EdgeLoopGoesOn(g, i, j);
        h := FrameRightCell(i, j, row, h);
        i := i + width;
        j := j + 1;
      }
      EdgeLoopGoesOn(g, i, j);
      FrameEnds(h, i, 0);
    }

    method FrameRightCell(i: int, ghost j: int, row: int, ghost g: BufferedGrid) returns (ghost h: BufferedGrid)
      requires Holds(g) && entrance == g.entrance && 0 <= j < g.height && 0 <= row < g.height
      requires EndsRow(g.width, i, j) && EndsRow(g.width, g.entrance, row) && FramedUpTo(g, i, 0)
      modifies this`nWalls, matrix
      ensures Holds(h) && h == g.(cells := h.cells) && FramedUpTo(h, i + g.width, 0)
      ensures nWalls == old(nWalls) + Flag(row != j)
      ensures TotalWalls(h.cells) == TotalWalls(g.cells) + Flag(row != j)
    {
      hide FramedUpTo, TotalWalls;
      FrameRight(g, j, i);
      if i == entrance { AtIsInjective(g, g.width - 1, j, g.width - 1, row); }
      h := g;
      if i != entrance {
        nWalls := nWalls + 1;
        AddWall(i, 1, g);
        h := WithCell(g, i, g.cells[i].Set(1, true));
      }
    }

    /** addRandomExit: a random row's left-edge cell, and left walls on all others. `draw` is what
        rand() gives. */
    method AddRandomExit(draw: int, ghost g: BufferedGrid) returns (ghost h: BufferedGrid)
      requires 0 <= draw <= RAND_MAX
      requires Holds(g) && FramedUpTo(g, |g.cells|, 0) && nWalls == g.height - 1 == TotalWalls(g.cells)
      modifies this`exit, this`nWalls, matrix
      ensures Holds(h) && h.width == g.width && h.height == g.height && h.entrance == g.entrance
      ensures StartsRow(h.width, h.exit, draw % h.height)
      ensures IsCell(h, h.exit) && MazeGrid.IsLeftEdge(h, h.exit)
      ensures FramedUpTo(h, |h.cells|, |h.cells|) && nWalls == 2 * (h.height - 1) == TotalWalls(h.cells)
    {
      hide FramedUpTo, TotalWalls, MazeGrid.IsLeftEdge;
      var row := PickRow(draw);
      exit := row * width;
      h := g.(exit := exit);
      FrameLeftStarts(g, exit);
      h := FrameLeftEdge(row, h);
      NextLeftEdge(h, row);
    }

    method FrameLeftEdge(row: int, ghost g: BufferedGrid) returns (ghost h: BufferedGrid)
      requires Holds(g) && 0 <= row < g.height && StartsRow(g.width, g.exit, row)
      requires FramedUpTo(g, |g.cells|, 0) && nWalls == g.height - 1 == TotalWalls(g.cells)
      modifies this`nWalls, matrix
      ensures Holds(h) && h == g.(cells := h.cells)
      ensures FramedUpTo(h, |h.cells|, |h.cells|) && nWalls == 2 * (g.height - 1) == TotalWalls(h.cells)
    {
      hide FramedUpTo, TotalWalls, StartsRow, EndsRow;
      FirstRow(width);
      h := g;
      var i := 0;
      ghost var j := 0;
      while i < totalCells
        invariant Holds(h) && h == g.(cells := h.cells) && FramedUpTo(h, |h.cells|, i)
        invariant 0 <= j <= g.height && StartsRow(g.width, i, j)
        invariant nWalls == TotalWalls(h.cells) == g.height - 1 + j - Flag(row < j)
        decreases g.height - j
      {
        EdgeLoopGoesOn(g, i, j);
        h := FrameLeftCell(i, j, row, h);
        i := i + width;
        j := j + 1;
      }
      EdgeLoopGoesOn(g, i, j);
      FrameEnds(h, |h.cells|, i);
    }

    method FrameLeftCell(i: int, ghost j: int, row: int, ghost g: BufferedGrid) returns (ghost h: BufferedGrid)
      requires Holds(g) && exit == g.exit && 0 <= j < g.height && 0 <= row < g.height
      requires StartsRow(g.width, i, j) && StartsRow(g.width, g.exit, row) && FramedUpTo(g, |g.cells|, i)
      modifies this`nWalls, matrix
      ensures Holds(h) && h == g.(cells := h.cells) && FramedUpTo(h, |h.cells|, i + g.width)
      ensures nWalls == old(nWalls) + Flag(row != j)
      ensures TotalWalls(h.cells) == TotalWalls(g.cells) + Flag(row != j)
    {
      hide FramedUpTo, TotalWalls;
      FrameLeft(g, j, i);
      if i == exit { AtIsInjective(g, 0, j, 0, row); }
      h := g;
      if i != exit {
        nWalls := nWalls + 1;
        AddWall(i, 3, g);
        h := WithCell(g, i, g.cells[i].Set(3, true));
      }
    }

    /** rand() % m_height. */
    method PickRow(draw: int) returns (row: int)
      requires height > 0
      ensures 0 <= row < height && row == draw % height
    {
      row := draw % height;
    }

    /** One loop of the generator: nTries times add a wall, test, undo. */
    method AddWalls(ghost g: SoundMaze) returns (ghost h: SoundMaze)
      requires Current(g) && AllReachable(g) && 1 <= maxWalls <= 3 && Conserved(g, nWalls) && nTries >= 0
      modifies this`nWalls, matrix, this`visual, this`intersections, this`minIntersections, this`problems,
        this`wallCount, this`routes, this`visited, this`bestRoute, this`nVisited, this`allReachable, this`mzString
      ensures Current(h) && AllReachable(h) && Conserved(h, nWalls)
      ensures h == g.(cells := h.cells) && (AtMost(g, maxWalls) ==> AtMost(h, maxWalls))
      ensures Leads(g, h, maxWalls, nTries)
    {
      hide Current, AtMost, Conserved, AllReachable, Added, Turn;
      h := g;
      for i := 0 to nTries
        invariant Current(h) && AllReachable(h) && Conserved(h, nWalls)
        invariant h == g.(cells := h.cells) && (AtMost(g, maxWalls) ==> AtMost(h, maxWalls))
        invariant Leads(g, h, maxWalls, i)
      {
        ghost var m := h;
        h := TryWall(h);
        LeadsOn(g, m, h, maxWalls, i);
      }
    }

    /** fillWalllessCells: the right wall of every listed cell, on both sides, without any check. */
    method FillWalllessCells(ghost g: SoundMaze) returns (ghost h: SoundMaze)
      requires Current(g) && AllReachable(g)
      modifies matrix, this`visual, this`intersections, this`minIntersections, this`problems,
        this`wallCount, this`routes, this`visited, this`bestRoute, this`nVisited, this`allReachable, this`mzString
      ensures h == Repaired(g) && Current(h) && AllReachable(h) && allReachable
    {
      h := FillListed(g);
      RepairKeepsReachable(g);
      UpdateSound(h);
    }

    method FillListed(ghost g: SoundMaze) returns (ghost h: SoundMaze)
      requires Holds(g) && problems == Problems(g)
      modifies matrix
      ensures h == Repaired(g) && Holds(h)
    {
      ghost var k: BufferedGrid := g;
      FilledNone(g);
      assert problems[..0] == [];
      for i := 0 to |problems|
        invariant k == Filled(g, problems[..i]) && Holds(k)
      {
        k := FillCell(g, i, k);
      }
      assert problems[..|problems|] == problems;
      RepairKeepsSound(g);
      h := Repaired(g);
    }

    method FillCell(ghost g: SoundMaze, i: int, ghost k: BufferedGrid) returns (ghost h: BufferedGrid)
      requires problems == Problems(g) && 0 <= i < |problems|
      requires k == Filled(g, problems[..i]) && Holds(k)
      modifies matrix
      ensures h == Filled(g, problems[..i + 1]) && Holds(h)
    {
      hide Problems, Filled, EdgesAgree, BoundaryWalled;
      var p := problems[i];
      FillNext(g, i);
      hide IsRightEdge, IsLeftEdge, MazeGrid.Neighbour;
      assert problems[..i + 1] == problems[..i] + [p];
      AddWall(p, 1, k);
      h := WithCell(k, p, k.cells[p].Set(1, true));
      AddWall(p + 1, 3, h);
      h := WithCell(h, p + 1, h.cells[p + 1].Set(3, true));
    }

    /** The integer statistics are those of the best route. */
    ghost predicate StatisticsAre(g: BufferedGrid)
      reads this`bestRoute, this`rowHistogram, this`rowsUtilized, this`opposingSteps
    {
      && rowHistogram == Histogram(g, bestRoute)
      && rowsUtilized == RowsUtilized(g, bestRoute) && opposingSteps == OpposingSteps(g, bestRoute)
    }

    /** calculateMazeAndRouteStats, without the two percentages. */
    method CalculateMazeAndRouteStats(ghost g: BufferedGrid)
      requires LaidOut(g) && forall i :: 0 <= i < |bestRoute| ==> IsCell(g, bestRoute[i])
      modifies this`rowHistogram, this`rowsUtilized, this`opposingSteps
      ensures StatisticsAre(g)
    {
      var counts := CountRows(bestRoute, width, height, g);
      var used := CountUsed(counts);
      var opposing := CountOpposing(bestRoute, width, g);
      rowHistogram, rowsUtilized, opposingSteps := counts, used, opposing;
    }

    /** The dimensions of a maze. */
    method Resize(w: int, h: int)
      modifies this`width, this`height, this`totalCells, this`widthVisual, this`heightVisual
      ensures width == w && height == h && totalCells == w * h
      ensures widthVisual == 2 * w + 1 && heightVisual == h + 1
    {
      width, height := w, h;
      totalCells := w * h;
      widthVisual, heightVisual := w * 2 + 1, h + 1;
    }

    /** One '0' for every cell at the end of the string. */
    method AppendZeros()
      requires totalCells >= 0
      modifies this`mzString
      ensures |mzString| == |old(mzString)| + totalCells
      ensures old(mzString) <= mzString && forall i :: |old(mzString)| <= i < |mzString| ==> mzString[i] == 0x30
    {
      for i := 0 to totalCells
        invariant |mzString| == |old(mzString)| + i
        invariant old(mzString) <= mzString && forall j :: |old(mzString)| <= j < |mzString| ==> mzString[j] == 0x30
      {
        mzString := mzString + [0x30];
      }
    }

    /** The string shows no wall in the places that a w * h matrix reads. A fresh object's string is
        empty; generateMZ never clears it. */
    ghost predicate Blank(w: int, h: int)
      reads this`mzString
    {
      forall i :: 0 <= i < |mzString| && i < w * h ==> mzString[i] == 0x30
    }

    /** The generator up to its first matrix: no wall anywhere. */
    method StartEmpty(w: int, h: int) returns (ghost g: BufferedGrid)
      requires FitsBuffer(w, h) && Blank(w, h)
      modifies this`width, this`height, this`totalCells, this`widthVisual, this`heightVisual,
        this`nWalls, this`mzString, this`allReachable, this`matrix
      ensures Holds(g) && g.width == w && g.height == h && nWalls == 0
      ensures FramedUpTo(g, 0, 0) && TotalWalls(g.cells) == 0
      ensures forall i :: 0 <= i < |matrix| ==> fresh(matrix[i])
    {
      Resize(w, h);
      nWalls := 0;
      MulLe(0, h, w);
      AppendZeros();
      assert forall i :: 0 <= i < totalCells ==> mzString[i] == 0x30;
      allReachable := false;
      InitializeCLMatrix();
      g := Grid(w, h, entrance, exit, seq(totalCells, i => Walls(false, false, false, false)));
      NothingFramed(g);
    }

    /** Entrance, exit and the walled edges: everything is reachable and every wall is counted. */
    method Frame(ghost g: BufferedGrid) returns (ghost h: SoundMaze)
      requires Holds(g) && nWalls == 0 && FramedUpTo(g, 0, 0) && TotalWalls(g.cells) == 0
      modifies this`entrance, this`exit, this`nWalls, matrix
      ensures Holds(h) && h.width == g.width && h.height == g.height
      ensures Unobstructed(h) && AllReachable(h) && Conserved(h, nWalls) && (h.width >= 2 ==> AtMost(h, 1))
    {
      hide FramedUpTo, TotalWalls, AtMost, Conserved, AllReachable, Unobstructed;
      var first := Rand();
      ghost var k := AddRandomEntrance(first, g);
      var second := Rand();
      ghost var l := AddRandomExit(second, k);
      assert MazeGrid.IsRightEdge(l, l.entrance) == MazeGrid.IsRightEdge(k, k.entrance);
      FrameIsStart(l, nWalls);
      h := l;
    }

    method CountTries(ghost g: SoundMaze)
      requires Current(g)
      modifies this`nTries
      ensures nTries == totalCells / 2 >= 0 && totalCells == |g.cells|
    {
      nTries := totalCells / 2;
    }

    /** The three loops of the generator; after the loop for k walls no cell has more than k. */
    method Grow(ghost g: SoundMaze) returns (ghost one: SoundMaze, ghost two: SoundMaze, ghost h: SoundMaze)
      requires Current(g) && AllReachable(g) && Conserved(g, nWalls)
      requires g.width >= 2 ==> AtMost(g, 1)
      modifies this`nTries, this`maxWalls, this`nWalls, matrix, this`visual, this`intersections,
        this`minIntersections, this`problems, this`wallCount, this`routes, this`visited, this`bestRoute,
        this`nVisited, this`allReachable, this`mzString
      ensures Current(h) && AllReachable(h) && Conserved(h, nWalls) && h == g.(cells := h.cells)
      ensures g.width >= 2 ==> AtMost(one, 1) && AtMost(two, 2) && AtMost(h, 3)
      ensures Grown(g, h)
    {
      hide Current, AtMost, Conserved, AllReachable, Leads;
      CountTries(g);
      maxWalls := 1;
      one := AddWalls(g);
      if g.width >= 2 { AtMostMore(one, 1, 2); }
      maxWalls := 2;
      two := AddWalls(one);
      if g.width >= 2 { AtMostMore(two, 2, 3); }
      maxWalls := 3;
      h := AddWalls(two);
      GrownBy(g, one, two, h);
    }

    /** The last step of the generator: repair where a lattice point is bare. */
    method Finish(ghost g: SoundMaze) returns (ghost h: SoundMaze)
      requires Current(g) && AllReachable(g) && (g.width >= 2 ==> AtMost(g, 3))
      modifies matrix, this`visual, this`intersections, this`minIntersections, this`problems,
        this`wallCount, this`routes, this`visited, this`bestRoute, this`nVisited, this`allReachable,
        this`mzString, this`rowHistogram, this`rowsUtilized, this`opposingSteps
      ensures Current(h) && allReachable && StatisticsAre(h)
      ensures h == LastStep(g) && Finished(h)
      ensures minIntersections == 0 <==> SomeStaysBare(g)
    {
      hide Current, AtMost, AllReachable, Repaired, Least, Finished, StatisticsAre, Sound, Intersections;
      hide RoutesAre, LaidOut, SomeStaysBare;
      h := g;
      LeastIsKnown(g);
      if minIntersections == 0 {
        FinishedByRepair(g);
        h := FillWalllessCells(g);
      } else {
        ReachableIsDecided(g);
        FinishedWithoutRepair(g);
      }
      LeastIsKnown(h);
      LeastAtTheEnd(g);
      MeasureRoute(h);
    }

    lemma LeastIsKnown(g: SoundMaze)
      requires Current(g)
      ensures minIntersections == Least(Intersections(g)) && RoutesAre(g) && LaidOut(g)
    {
    }

    method MeasureRoute(ghost g: BufferedGrid)
      requires LaidOut(g) && RoutesAre(g)
      modifies this`rowHistogram, this`rowsUtilized, this`opposingSteps
      ensures StatisticsAre(g)
    {
      BestRouteIsShortest(g);
      CalculateMazeAndRouteStats(g);
    }

    /** generateMZ, for every outcome of every rand(). `start` is the maze before the three loops and
        `before` the one after them. */
    method GenerateMZ(w: int, h: int)
      returns (ghost start: SoundMaze, ghost before: SoundMaze, ghost g: SoundMaze)
      requires FitsBuffer(w, h) && Blank(w, h)
      modifies this
      ensures g.width == w && g.height == h
      ensures Current(g) && allReachable && StatisticsAre(g) && Finished(g)
      ensures Unobstructed(start) && Grown(start, before)
      ensures g == LastStep(before) && (minIntersections == 0 <==> SomeStaysBare(before))
      ensures Conserved(before, nWalls) && nWalls == SegmentCount(before)
    {
      hide Current, AtMost, AllReachable, Repaired, Least, Finished, StatisticsAre, Conserved, Holds;
      hide FramedUpTo, TotalWalls, SegmentCount, Sound, Unobstructed, Grown, LastStep, SomeStaysBare;
      ghost var empty := StartEmpty(w, h);
      start := Frame(empty);
      UpdateSound(start);
      ghost var one, two;
      one, two, before := Grow(start);
      ConservedCountsSegments(before, nWalls);
      g := Finish(before);
    }

    /** checkMZ. */
    method CheckMZ() returns (ok: bool)
      ensures ok <==> mzString != [] && |mzString| == width * height
    {
      if |mzString| == 0 {
        return false;
      } else if |mzString| != width * height {
        return false;
      }
      return true;
    }

    /** setMZ: what happens depends on the arguments alone, and an accepted maze is fully rebuilt. */
    method SetMZ(w: int, h: int, en: int, ex: int, s: seq<cchar>) returns (outcome: Outcome)
      requires s != [] && |s| == w * h ==> w >= 1 && h >= 1
      requires s != [] && |s| == w * h && EdgesAgree(Load(w, h, en, ex, s)) ==> FitsBuffer(w, h)
      modifies this
      ensures outcome == Verdict(w, h, en, ex, s)
      ensures outcome == Accepted ==> SyncedTo(Load(w, h, en, ex, s)) && StatisticsAre(Load(w, h, en, ex, s))
      ensures outcome == Accepted ==> mzString == s
    {
      hide Throws, EdgesAgree, Bfs, Visual, Intersections, Problems, Least, WallCounts;
      hide StatisticsAre, RoutesAre, DrawingIs;
      Resize(w, h);
      entrance, exit := en, ex;
      mzString := s;
      allReachable := false;
      var ok := CheckMZ();
      if !ok { return Rejected; }
      ghost var g: ShapedGrid := Load(w, h, en, ex, s);
      InitializeCLMatrix();
      ok := CheckEdgeCompatibility(g);
      if !ok { return Rejected; }
      ok := Rebuild(g);
      outcome := if ok then Accepted else Thrown;
    }

    /** The last two steps of setMZ. */
    method Rebuild(ghost g: BufferedGrid) returns (ok: bool)
      requires Shows(g)
      modifies this`visual, this`intersections, this`minIntersections, this`problems, this`wallCount,
        this`routes, this`visited, this`bestRoute, this`nVisited, this`allReachable, this`mzString,
        this`rowHistogram, this`rowsUtilized, this`opposingSteps
      ensures Shape(g) && (ok <==> !Throws(g))
      ensures ok ==> SyncedTo(g) && StatisticsAre(g)
    {
      hide Throws, Bfs, Visual, Intersections, Problems, Least, WallCounts, StatisticsAre;
      var thrown := UpdateVectors(g);
      if !thrown {
        MeasureRoute(g);
      }
      ok := !thrown;
    }

    /** shiftDown, for a non-negative offset: the last rows of the string come first, and the gates
        move along. */
    method ShiftDown(offset: int)
      requires width > 0 && height > 0 && totalCells > 0 && totalCells == |mzString| && offset >= 0
      requires totalCells == width * height
      modifies this`mzString, this`entrance, this`exit
      ensures 0 <= Front(width, height, offset) <= totalCells
      ensures mzString == Rotated(old(mzString), Front(width, height, offset))
      ensures entrance == Remainder(old(entrance) + Front(width, height, offset), totalCells)
      ensures exit == Remainder(old(exit) + Front(width, height, offset), totalCells)
    {
      var k := offset % height;
      MulLe(k, height, width);
      MulLe(0, k, width);
      var lastRow := mzString[totalCells - k * width..];
      mzString := mzString[..totalCells - k * width];
      lastRow := lastRow + mzString;
      mzString := lastRow;
      entrance := Remainder(entrance + k * width, totalCells);
      exit := Remainder(exit + k * width, totalCells);
    }
  }

  lemma AgreesBySides(g: Grid, c: int)
    requires Shape(g) && IsCell(g, c)
    ensures AgreesAt(g, c) <==>
              AgreesOn(g, c, 0) && AgreesOn(g, c, 1) && AgreesOn(g, c, 2) && AgreesOn(g, c, 3)
  {
    if AgreesOn(g, c, 0) && AgreesOn(g, c, 1) && AgreesOn(g, c, 2) && AgreesOn(g, c, 3) {
      forall d: Side ensures AgreesOn(g, c, d) {
        assert d == 0 || d == 1 || d == 2 || d == 3;
      }
    }
  }

  /** Two objects agree about the walls of every cell and about everything derived from them. */
  ghost predicate SameMaze(a: MZ, b: MZ)
    reads a, b, a.matrix, b.matrix
  {
    && a.width == b.width && a.height == b.height && a.entrance == b.entrance && a.exit == b.exit
    && a.mzString == b.mzString
    && |a.matrix| == |b.matrix|
    && (forall i :: 0 <= i < |a.matrix| ==> Decode(a.matrix[i].code) == Decode(b.matrix[i].code))
    && a.visual == b.visual && a.intersections == b.intersections && a.minIntersections == b.minIntersections
    && a.problems == b.problems && a.wallCount == b.wallCount
    && a.routes == b.routes && a.visited == b.visited && a.bestRoute == b.bestRoute
    && a.nVisited == b.nVisited && a.allReachable == b.allReachable
    && a.rowHistogram == b.rowHistogram && a.rowsUtilized == b.rowsUtilized && a.opposingSteps == b.opposingSteps
  }

  lemma SameMazeOf(a: MZ, b: MZ, g: SoundMaze)
    requires a.Current(g) && a.StatisticsAre(g) && b.SyncedTo(g) && b.StatisticsAre(g) && a.mzString == b.mzString
    ensures SameMaze(a, b)
  {
    hide Bfs, Visual, Intersections, Problems, Least, WallCounts, Histogram, RowsUtilized, OpposingSteps, Sound;
  }

  /** What a fresh object generates, another one accepts and rebuilds. */
  method GenerateAndSet(w: int, h: int) returns (a: MZ, b: MZ, outcome: Outcome)
    requires FitsBuffer(w, h)
    ensures outcome == Accepted && SameMaze(a, b)
  {
    hide MZ.Current, MZ.StatisticsAre, MZ.SyncedTo, Sound, Verdict, Load, Rendered, SameMaze, Finished, Grown;
    a := new MZ();
    ghost var start, before, g;
    start, before, g := a.GenerateMZ(w, h);
    CurrentString(a, g);
    SoundIsAccepted(g);
    RenderedLoads(g);
    b := new MZ();
    outcome := b.SetMZ(a.width, a.height, a.entrance, a.exit, a.mzString);
    SameMazeOf(a, b, g);
  }

  lemma CurrentString(a: MZ, g: SoundMaze)
    requires a.Current(g)
    ensures a.mzString == Rendered(g) && |a.mzString| == a.width * a.height
    ensures a.width == g.width && a.height == g.height && a.entrance == g.entrance && a.exit == g.exit
  {
  }

  /** shiftDown, then setMZ with the shifted fields: the outcome is that of the maze as it was, and an
      accepted maze is rebuilt as the shifted one. */
  method ShiftAndSet(m: MZ, offset: int, ghost g: ShapedGrid) returns (outcome: Outcome)
    requires g == Load(m.width, m.height, m.entrance, m.exit, m.mzString) && offset >= 0
    requires m.totalCells == |m.mzString| == m.width * m.height
    requires IsCell(g, g.entrance) && IsCell(g, g.exit)
    requires EdgesAgree(g) ==> FitsBuffer(g.width, g.height)
    modifies m
    ensures outcome == old(Verdict(m.width, m.height, m.entrance, m.exit, m.mzString))
    ensures ByRows(g, offset % g.height)
    ensures outcome == Accepted ==>
              m.SyncedTo(Shifted(g, offset % g.height)) && m.StatisticsAre(Shifted(g, offset % g.height))
  {
    hide EdgesAgree, Throws, Shifted, Verdict, Front, MZ.StatisticsAre, MZ.SyncedTo;
    ghost var w, h, s := m.width, m.height, m.mzString;
    FrontShifts(w, h, m.entrance, m.exit, s, offset);
    if Verdict(w, h, m.entrance, m.exit, s) == Accepted { VerdictNeedsAgreement(w, h, m.entrance, m.exit, s); }
    m.ShiftDown(offset);
    outcome := m.SetMZ(m.width, m.height, m.entrance, m.exit, m.mzString);
  }

  lemma VerdictNeedsAgreement(w: int, h: int, entrance: int, exit: int, s: seq<cchar>)
    requires w >= 1 && h >= 1 && Verdict(w, h, entrance, exit, s) == Accepted
    ensures |s| == w * h && EdgesAgree(Load(w, h, entrance, exit, s))
  {
  }
}
