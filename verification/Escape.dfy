/** Which cells the route search has looked around from: what is needed to say exactly when it
    would index cell -1. */
module EscapeSearch {
  import opened Cells
  import opened MazeGrid
  import opened RouteSearch

  ghost predicate EndsAt(routes: seq<Route>, c: int) {
    exists i :: 0 <= i < |routes| && routes[i] != [] && Last(routes[i]) == c
  }

  /** Every cell visited in t but not in s is the end of a route of t. */
  ghost predicate Covers(s: Search, t: Search) {
    && |s.visited| == |t.visited|
    && forall c {:trigger t.visited[c]} :: 0 <= c < |t.visited| && t.visited[c] ==>
         s.visited[c] || EndsAt(t.routes, c)
  }

  ghost predicate Reached(g: Grid, routes: seq<Route>)
    requires Shape(g)
  {
    forall i :: 0 <= i < |routes| ==> EndsInGrid(g, routes[i]) && Reaches(g, g.entrance, Last(routes[i]))
  }

  lemma EndsAtMore(routes: seq<Route>, more: seq<Route>, c: int)
    requires routes <= more && EndsAt(routes, c)
    ensures EndsAt(more, c)
  {
    var i :| 0 <= i < |routes| && routes[i] != [] && Last(routes[i]) == c;
    assert more[i] == routes[i];
  }

  lemma LookCovers(g: Grid, s0: Search, s: Search, route: Route, d: Side)
    requires Fits(g, s) && EndsInGrid(g, route) && Covers(s0, s)
    requires Reached(g, s.routes) && Reaches(g, g.entrance, Last(route))
    ensures Covers(s0, Look(g, s, route, d)) && Reached(g, Look(g, s, route, d).routes)
  {
    var t := Look(g, s, route, d);
    var c := Last(route);
    if CanStep(g, c, d) {
      NeighbourInvolution(g, c, d);
      var nb := Neighbour(g, c, d);
      StepReaches(g, c, d);
      ReachesTransitive(g, g.entrance, c, nb);
      if !s.visited[nb] {
        assert t.routes[|s.routes|] == route + [nb];
        forall x | 0 <= x < |t.visited| && t.visited[x] ensures s0.visited[x] || EndsAt(t.routes, x) {
          if x != nb && EndsAt(s.routes, x) { EndsAtMore(s.routes, t.routes, x); }
        }
      }
    }
  }

  lemma {:induction false} LookAroundCovers(g: Grid, s0: Search, s: Search, route: Route, d: nat)
    requires d <= 4 && Fits(g, s) && EndsInGrid(g, route) && Covers(s0, s)
    requires Reached(g, s.routes) && Reaches(g, g.entrance, Last(route))
    ensures Covers(s0, LookAround(g, s, route, d)) && Reached(g, LookAround(g, s, route, d).routes)
  {
    if d == 0 {
    } else {
      LookAroundCovers(g, s0, s, route, d - 1);
      LookCovers(g, s0, LookAround(g, s, route, d - 1), route, d - 1);
    }
  }

  lemma {:induction false} SweepCovers(g: Grid, routes: seq<Route>, n: nat, s: Search)
    requires n <= |routes| && AllEndInGrid(g, routes) && Fits(g, s) && s.routes == [] && Reached(g, routes)
    ensures Covers(s, Sweep(g, routes, n, s).1) && Reached(g, Sweep(g, routes, n, s).1.routes)
    ensures Reached(g, Sweep(g, routes, n, s).0)
  {
    if n == 0 {
    } else {
      SweepCovers(g, routes, n - 1, s);
      LookAroundCovers(g, s, Sweep(g, routes, n - 1, s).1, routes[n - 1], 4);
    }
  }

  /** After a round every cell visited only now is the end of a route, and all ends are reachable. */
  lemma RoundCovers(g: Grid, s: Search)
    requires Fits(g, s) && AllEndInGrid(g, s.routes) && Reached(g, s.routes)
    ensures Covers(s, Round(g, s).1) && Reached(g, Round(g, s).1.routes)
    ensures !Round(g, s).0 ==> Round(g, s).1.visited == s.visited
  {
    var s0 := s.(routes := []);
    SweepCovers(g, s.routes, |s.routes|, s0);
    var (kept, s1) := Sweep(g, s.routes, |s.routes|, s0);
    var t := s1.(routes := kept + s1.routes);
    assert Round(g, s) == (s1.routes != [], t);
    forall c | 0 <= c < |t.visited| && t.visited[c] ensures s.visited[c] || EndsAt(t.routes, c) {
      if EndsAt(s1.routes, c) {
        var i :| 0 <= i < |s1.routes| && s1.routes[i] != [] && Last(s1.routes[i]) == c;
        assert t.routes[|kept| + i] == s1.routes[i];
      }
    }
    if s1.routes == [] {
      NothingNew(g, s.routes, |s.routes|, s0);
    }
  }

  lemma {:induction false} NothingNew(g: Grid, routes: seq<Route>, n: nat, s: Search)
    requires n <= |routes| && AllEndInGrid(g, routes) && Fits(g, s)
    requires |Sweep(g, routes, n, s).1.routes| == |s.routes|
    ensures Sweep(g, routes, n, s).1 == s
  {
    if n == 0 {
    } else {
      var s1 := Sweep(g, routes, n - 1, s).1;
      SweepAdvances(g, routes, n - 1, s);
      NothingNew(g, routes, n - 1, s);
      LookFails(g, s1, s1, routes[n - 1], 4);
    }
  }

  /** Between two rounds: the rest of the run still leads to the final state, all routes end in
      reachable cells, and every visited cell has been looked around from or is the end of a route. */
  ghost predicate Searching(g: Grid, s: Search) {
    && Fits(g, s) && IsCell(g, g.entrance) && AllEndInGrid(g, s.routes) && Reached(g, s.routes)
    && Run(g, s) == Bfs(g)
    && (forall c :: 0 <= c < |s.visited| && s.visited[c] ==> !Escapes(g, c) || EndsAt(s.routes, c))
  }

  lemma SearchStarts(g: Grid)
    requires Shape(g) && IsCell(g, g.entrance)
    ensures Searching(g, Start(g))
  {
    StayReaches(g, g.entrance);
    assert Start(g).routes[0] == [g.entrance];
  }

  ghost predicate Completed(g: Grid, s: Search) {
    && Shape(g) && IsCell(g, g.entrance) && s == Bfs(g)
    && forall c :: 0 <= c < |s.visited| && s.visited[c] ==> !Escapes(g, c)
  }

  /** An uneventful round either goes on or has completed the search with no escape anywhere. */
  lemma SearchContinues(g: Grid, s: Search)
    requires Searching(g, s)
    requires forall i :: 0 <= i < |s.routes| ==> !Escapes(g, Last(s.routes[i]))
    ensures var (more, t) := Round(g, s);
            if more then Searching(g, t) else Completed(g, t)
  {
    RoundCovers(g, s);
    forall c | 0 <= c < |s.visited| && s.visited[c] ensures !Escapes(g, c) {
      if EndsAt(s.routes, c) {
        var i :| 0 <= i < |s.routes| && s.routes[i] != [] && Last(s.routes[i]) == c;
      }
    }
  }

  /** The search throws exactly for these mazes: the entrance is no cell, or some reachable cell is
      open towards the outside other than at the gate its position allows. */
  ghost predicate Throws(g: Grid)
    requires Shape(g)
  {
    !IsCell(g, g.entrance) || exists c :: IsCell(g, c) && Reaches(g, g.entrance, c) && Escapes(g, c)
  }

  lemma SearchThrows(g: Grid, s: Search)
    requires Searching(g, s)
    requires exists i :: 0 <= i < |s.routes| && Escapes(g, Last(s.routes[i]))
    ensures Throws(g)
  {
  }

  lemma CompletedNeverThrows(g: Grid, s: Search)
    requires Completed(g, s)
    ensures !Throws(g)
  {
    VisitedIsReachable(g);
  }
}
