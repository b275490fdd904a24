/** The route search commutes with every renumbering of the cells that respects the steps. */
module RouteSymmetry {
  import opened Cells
  import opened MazeGrid
  import opened RouteSearch

  /** Cell c of one maze is cell m[c] of the other. */
  function To(m: seq<int>, c: int): int {
    if 0 <= c < |m| then m[c] else c
  }

  ghost predicate SameStep(g: Grid, h: Grid, m: seq<int>, c: int, d: Side)
    requires Shape(g) && Shape(h) && IsCell(g, c) && IsCell(h, To(m, c))
  {
    && (CanStep(h, To(m, c), d) <==> CanStep(g, c, d))
    && (CanStep(g, c, d) ==> Neighbour(h, To(m, c), d) == To(m, Neighbour(g, c, d)))
  }

  /** m renumbers the cells of g as those of h; entrance, exit and steps go along. */
  ghost predicate Symmetry(g: Grid, h: Grid, m: seq<int>) {
    && Shape(g) && Shape(h) && |m| == |g.cells| == |h.cells|
    && IsCell(g, g.entrance) && h.entrance == To(m, g.entrance)
    && IsCell(g, g.exit) && h.exit == To(m, g.exit)
    && (forall c {:trigger To(m, c)} :: 0 <= c < |m| ==> 0 <= To(m, c) < |m|)
    && (forall b, c {:trigger To(m, b), To(m, c)} ::
          0 <= b < |m| && 0 <= c < |m| && To(m, b) == To(m, c) ==> b == c)
    && (forall c, d: Side {:trigger SameStep(g, h, m, c, d)} :: 0 <= c < |m| ==> SameStep(g, h, m, c, d))
  }

  function MovedRoute(m: seq<int>, p: Route): Route {
    seq(|p|, i requires 0 <= i < |p| => To(m, p[i]))
  }

  /** The same routes in the same order, cell by cell renumbered. */
  ghost predicate MovedRoutes(m: seq<int>, routes: seq<Route>, routes': seq<Route>) {
    |routes'| == |routes| && forall i :: 0 <= i < |routes| ==> routes'[i] == MovedRoute(m, routes[i])
  }

  /** t is s with every cell renumbered. */
  ghost predicate Corresponds(m: seq<int>, s: Search, t: Search) {
    && |s.visited| == |t.visited| == |m|
    && MovedRoutes(m, s.routes, t.routes)
    && (forall c {:trigger To(m, c)} :: 0 <= c < |m| ==>
          0 <= To(m, c) < |m| && t.visited[To(m, c)] == s.visited[c])
    && t.found == s.found && t.best == MovedRoute(m, s.best)
  }

  lemma MovedEnds(g: Grid, h: Grid, m: seq<int>, p: Route)
    requires Symmetry(g, h, m) && EndsInGrid(g, p)
    ensures EndsInGrid(h, MovedRoute(m, p))
    ensures Last(MovedRoute(m, p)) == To(m, Last(p))
  {
  }

  lemma LookCorresponds(g: Grid, h: Grid, m: seq<int>, s: Search, t: Search, p: Route, d: Side)
    requires Symmetry(g, h, m) && Corresponds(m, s, t) && EndsInGrid(g, p)
    ensures EndsInGrid(h, MovedRoute(m, p))
    ensures Corresponds(m, Look(g, s, p, d), Look(h, t, MovedRoute(m, p), d))
  {
    var c := Last(p);
    MovedEnds(g, h, m, p);
    assert SameStep(g, h, m, c, d);
    if CanStep(g, c, d) {
      NeighbourInvolution(g, c, d);
      var nb := Neighbour(g, c, d);
      assert MovedRoute(m, p + [nb]) == MovedRoute(m, p) + [To(m, nb)];
    }
  }

  lemma {:induction false} LookAroundCorresponds(g: Grid, h: Grid, m: seq<int>, s: Search, t: Search, p: Route,
                                                 d: nat)
    requires d <= 4 && Symmetry(g, h, m) && Corresponds(m, s, t) && EndsInGrid(g, p)
    ensures EndsInGrid(h, MovedRoute(m, p))
    ensures Corresponds(m, LookAround(g, s, p, d), LookAround(h, t, MovedRoute(m, p), d))
  {
    MovedEnds(g, h, m, p);
    if d == 0 {
    } else {
      LookAroundCorresponds(g, h, m, s, t, p, d - 1);
      LookCorresponds(g, h, m, LookAround(g, s, p, d - 1), LookAround(h, t, MovedRoute(m, p), d - 1), p, d - 1);
    }
  }

  lemma {:induction false} SweepCorresponds(g: Grid, h: Grid, m: seq<int>, routes: seq<Route>, routes': seq<Route>,
                                            n: nat, s: Search, t: Search)
    requires n <= |routes| && Symmetry(g, h, m) && Corresponds(m, s, t)
    requires AllEndInGrid(g, routes) && AllEndInGrid(h, routes') && MovedRoutes(m, routes, routes')
    ensures MovedRoutes(m, Sweep(g, routes, n, s).0, Sweep(h, routes', n, t).0)
    ensures Corresponds(m, Sweep(g, routes, n, s).1, Sweep(h, routes', n, t).1)
  {
    assert Fits(g, s) && Fits(h, t);
    hide Symmetry, Corresponds, MovedRoute;
    if n == 0 {
    } else {
      SweepCorresponds(g, h, m, routes, routes', n - 1, s, t);
      var a, b := Sweep(g, routes, n - 1, s), Sweep(h, routes', n - 1, t);
      var p, p' := routes[n - 1], routes'[n - 1];
      assert p' == MovedRoute(m, p);
      hide MovedRoutes;
      LookAroundCorresponds(g, h, m, a.1, b.1, p, 4);
      SameSize(m, a.1, b.1);
      SameSize(m, LookAround(g, a.1, p, 4), LookAround(h, b.1, p', 4));
      OneMoreMoved(m, a.0, b.0, p);
    }
  }

  lemma SameSize(m: seq<int>, s: Search, t: Search)
    requires Corresponds(m, s, t)
    ensures |s.routes| == |t.routes|
  {
  }

  lemma OneMoreMoved(m: seq<int>, routes: seq<Route>, routes': seq<Route>, p: Route)
    requires MovedRoutes(m, routes, routes')
    ensures MovedRoutes(m, routes + [p], routes' + [MovedRoute(m, p)])
  {
  }

  lemma RoundCorresponds(g: Grid, h: Grid, m: seq<int>, s: Search, t: Search)
    requires Symmetry(g, h, m) && Corresponds(m, s, t)
    requires AllEndInGrid(g, s.routes) && AllEndInGrid(h, t.routes)
    ensures Round(g, s).0 == Round(h, t).0
    ensures Corresponds(m, Round(g, s).1, Round(h, t).1)
  {
    var s0, t0 := s.(routes := []), t.(routes := []);
    SweepCorresponds(g, h, m, s.routes, t.routes, |s.routes|, s0, t0);
    Joined(m, Sweep(g, s.routes, |s.routes|, s0), Sweep(h, t.routes, |s.routes|, t0));
  }

  lemma Joined(m: seq<int>, a: (seq<Route>, Search), b: (seq<Route>, Search))
    requires MovedRoutes(m, a.0, b.0) && Corresponds(m, a.1, b.1)
    ensures a.1.routes != [] <==> b.1.routes != []
    ensures Corresponds(m, a.1.(routes := a.0 + a.1.routes), b.1.(routes := b.0 + b.1.routes))
  {
  }

  lemma {:induction false} RunCorresponds(g: Grid, h: Grid, m: seq<int>, s: Search, t: Search)
    requires Symmetry(g, h, m) && Corresponds(m, s, t)
    requires AllEndInGrid(g, s.routes) && AllEndInGrid(h, t.routes)
    ensures Corresponds(m, Run(g, s), Run(h, t))
    decreases Unvisited(s.visited)
  {
    RoundCorresponds(g, h, m, s, t);
    if !Round(g, s).0 {
    } else {
      RunCorresponds(g, h, m, Round(g, s).1, Round(h, t).1);
    }
  }

  /** Routes, best route and visited cells of the renumbered maze are the renumbered ones. */
  lemma SymmetryMovesRoutes(g: Grid, h: Grid, m: seq<int>)
    requires Symmetry(g, h, m)
    ensures IsCell(h, h.entrance) && Corresponds(m, Bfs(g), Bfs(h))
  {
    assert To(m, g.entrance) == h.entrance;
    assert MovedRoute(m, [g.entrance]) == [h.entrance];
    RunCorresponds(g, h, m, Start(g), Start(h));
  }
}
