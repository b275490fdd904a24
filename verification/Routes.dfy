/** The route search of updateRoutes as a function, and what it computes. */
module RouteSearch {
  import opened Cells
  import opened Counting
  import opened MazeGrid

  type Route = seq<int>

  /** m_vRoutes, m_vVisited, bBestRouteFound and m_vBestRoute. */
  datatype Search = Search(routes: seq<Route>, visited: seq<bool>, found: bool, best: Route)

  predicate Fits(g: Grid, s: Search) {
    Shape(g) && |s.visited| == |g.cells|
  }

  function Unvisited(visited: seq<bool>): nat {
    |visited| - Tally(visited)
  }

  lemma MarkVisited(visited: seq<bool>, i: nat)
    requires i < |visited| && !visited[i]
    ensures Unvisited(visited[i := true]) == Unvisited(visited) - 1
  {
    TallyUpdate(visited, i, true);
  }

  predicate EndsInGrid(g: Grid, route: Route) {
    route != [] && IsCell(g, Last(route))
  }

  function Start(g: Grid): Search
    requires Shape(g) && IsCell(g, g.entrance)
  {
    Search([[g.entrance]], seq(|g.cells|, i => i == g.entrance), false, [])
  }

  predicate AllEndInGrid(g: Grid, routes: seq<Route>) {
    forall i :: 0 <= i < |routes| ==> EndsInGrid(g, routes[i])
  }

  /** Nothing visited is forgotten. */
  ghost predicate StillVisited(s: Search, t: Search) {
    |s.visited| == |t.visited| && forall i :: 0 <= i < |s.visited| && s.visited[i] ==> t.visited[i]
  }

  /** What looking at a route keeps: every extension appended marks one cell. */
  ghost predicate Advances(g: Grid, s: Search, t: Search) {
    && Fits(g, t) && s.routes <= t.routes && StillVisited(s, t)
    && |t.routes| + Unvisited(t.visited) == |s.routes| + Unvisited(s.visited)
    && (AllEndInGrid(g, s.routes) ==> AllEndInGrid(g, t.routes))
  }

  /** One side of the last cell of a route: an unvisited open neighbour extends the route. */
  function Look(g: Grid, s: Search, route: Route, d: Side): (t: Search)
    requires Fits(g, s) && EndsInGrid(g, route)
    ensures Fits(g, t) && |t.routes| >= |s.routes|
  {
    if CanStep(g, Last(route), d) then
      NeighbourInvolution(g, Last(route), d);
      var nb := Neighbour(g, Last(route), d);
      if s.visited[nb] then s
      else
        var longer := route + [nb];
        Search(s.routes + [longer], s.visited[nb := true], s.found || nb == g.exit,
               if !s.found && nb == g.exit then longer else s.best)
    else s
  }

  /** All four sides, in the order top, right, bottom, left; d of them done. */
  function LookAround(g: Grid, s: Search, route: Route, d: nat): (t: Search)
    requires d <= 4 && Fits(g, s) && EndsInGrid(g, route)
    ensures Fits(g, t) && |t.routes| >= |s.routes|
  {
    if d == 0 then s else Look(g, LookAround(g, s, route, d - 1), route, d - 1)
  }

  /** The first n of the old routes: those that could not be extended are kept in order, the
      extensions gather in the routes of the second component. */
  function Sweep(g: Grid, routes: seq<Route>, n: nat, s: Search): (t: (seq<Route>, Search))
    requires n <= |routes| && AllEndInGrid(g, routes) && Fits(g, s)
    ensures Fits(g, t.1)
  {
    if n == 0 then ([], s)
    else
      var (kept, s1) := Sweep(g, routes, n - 1, s);
      var s2 := LookAround(g, s1, routes[n - 1], 4);
      (if |s2.routes| == |s1.routes| then kept + [routes[n - 1]] else kept, s2)
  }

  lemma LookAdvances(g: Grid, s: Search, route: Route, d: Side)
    requires Fits(g, s) && EndsInGrid(g, route)
    ensures Advances(g, s, Look(g, s, route, d))
  {
    if CanStep(g, Last(route), d) {
      NeighbourInvolution(g, Last(route), d);
      var nb := Neighbour(g, Last(route), d);
      if !s.visited[nb] { MarkVisited(s.visited, nb); }
    }
  }

  lemma AdvancesBase(g: Grid, s: Search)
    requires Fits(g, s)
    ensures Advances(g, s, s)
  {
  }

  lemma {:induction false} LookAroundAdvances(g: Grid, s: Search, route: Route, d: nat)
    requires d <= 4 && Fits(g, s) && EndsInGrid(g, route)
    ensures Advances(g, s, LookAround(g, s, route, d))
  {
    hide Advances, Look, Fits, EndsInGrid;
    if d == 0 {
      AdvancesBase(g, s);
    } else {
      LookAroundAdvances(g, s, route, d - 1);
      var t := LookAround(g, s, route, d - 1);
      LookAdvances(g, t, route, d - 1);
      AdvancesOn(g, s, t, Look(g, t, route, d - 1));
    }
  }

  lemma AdvancesOn(g: Grid, s: Search, t: Search, u: Search)
    requires Advances(g, s, t) && Advances(g, t, u)
    ensures Advances(g, s, u)
  {
    hide AllEndInGrid;
    assert s.routes <= u.routes by {
      assert forall i :: 0 <= i < |s.routes| ==> u.routes[i] == t.routes[i] == s.routes[i];
    }
  }

  lemma {:induction false} SweepAdvances(g: Grid, routes: seq<Route>, n: nat, s: Search)
    requires n <= |routes| && AllEndInGrid(g, routes) && Fits(g, s)
    ensures Advances(g, s, Sweep(g, routes, n, s).1) && AllEndInGrid(g, Sweep(g, routes, n, s).0)
  {
    if n == 0 {
    } else {
      SweepAdvances(g, routes, n - 1, s);
      LookAroundAdvances(g, Sweep(g, routes, n - 1, s).1, routes[n - 1], 4);
    }
  }

  /** One pass over all routes; bErase is empty exactly when nothing was extended. */
  function Round(g: Grid, s: Search): (t: (bool, Search))
    requires Fits(g, s) && AllEndInGrid(g, s.routes)
    ensures Fits(g, t.1) && AllEndInGrid(g, t.1.routes)
    ensures Unvisited(t.1.visited) <= Unvisited(s.visited)
    ensures t.0 ==> Unvisited(t.1.visited) < Unvisited(s.visited)
  {
    SweepAdvances(g, s.routes, |s.routes|, s.(routes := []));
    var (kept, s1) := Sweep(g, s.routes, |s.routes|, s.(routes := []));
    (s1.routes != [], s1.(routes := kept + s1.routes))
  }

  function Run(g: Grid, s: Search): (t: Search)
    requires Fits(g, s) && AllEndInGrid(g, s.routes)
    ensures Fits(g, t)
    decreases Unvisited(s.visited)
  {
    var (more, s1) := Round(g, s);
    if more then Run(g, s1) else s1
  }

  /** How often the outer loop runs. */
  function Rounds(g: Grid, s: Search): nat
    requires Fits(g, s) && AllEndInGrid(g, s.routes)
    decreases Unvisited(s.visited)
  {
    var (more, s1) := Round(g, s);
    if more then 1 + Rounds(g, s1) else 1
  }

  /** The whole of updateRoutes. */
  function Bfs(g: Grid): (t: Search)
    requires Shape(g) && IsCell(g, g.entrance)
    ensures Fits(g, t)
  {
    Run(g, Start(g))
  }

  // ----- The search tree -----

  /** Each visited cell with the route on which it was first reached. */
  type Tree = map<int, Route>

  function Parent(route: Route): int
    requires |route| >= 2
  {
    route[|route| - 2]
  }

  ghost predicate Node(g: Grid, tree: Tree, c: int)
    requires Shape(g) && c in tree && tree[c] != []
  {
    var route := tree[c];
    && (|route| == 1 ==> c == g.entrance)
    && (|route| >= 2 ==>
          && Parent(route) in tree && tree[Parent(route)] == route[..|route| - 1]
          && IsCell(g, Parent(route)) && Step(g, Parent(route), c))
  }

  ghost predicate HasChild(tree: Tree, c: int) {
    exists n {:trigger tree[n]} :: n in tree && |tree[n]| >= 2 && Parent(tree[n]) == c
  }

  /** Every open neighbour of c is in the tree, at most one step further out. */
  ghost predicate Closed(g: Grid, tree: Tree, c: int)
    requires Shape(g) && IsCell(g, c) && c in tree
  {
    forall d: Side :: CanStep(g, c, d) ==>
      Neighbour(g, c, d) in tree && |tree[Neighbour(g, c, d)]| <= |tree[c]| + 1
  }

  /** A tree of walks rooted at the entrance. */
  ghost predicate Rooted(g: Grid, tree: Tree, height: nat)
    requires Shape(g)
  {
    && (forall c :: c in tree ==> tree[c] != [] && Last(tree[c]) == c && IsCell(g, c) && |tree[c]| <= height)
    && (forall c {:trigger Node(g, tree, c)} :: c in tree ==> Node(g, tree, c))
    && g.entrance in tree && tree[g.entrance] == [g.entrance]
  }

  ghost predicate TreeInv(g: Grid, s: Search, tree: Tree, height: nat) {
    && Fits(g, s)
    && (forall c :: c in tree <==> IsCell(g, c) && s.visited[c])
    && Rooted(g, tree, height)
    && (s.found <==> g.exit in tree && g.exit != g.entrance)
    && s.best == if s.found then tree[g.exit] else []
  }

  /** The list holds exactly the routes to the tree's leaves, each once. */
  ghost predicate OnTree(tree: Tree, routes: seq<Route>) {
    && (forall i :: 0 <= i < |routes| ==>
          routes[i] != [] && Last(routes[i]) in tree && tree[Last(routes[i])] == routes[i])
    && (forall i, j :: 0 <= i < j < |routes| ==> routes[i] != routes[j])
  }

  ghost predicate LeavesListed(tree: Tree, routes: seq<Route>) {
    forall c {:trigger HasChild(tree, c)} :: c in tree ==> (HasChild(tree, c) <==> tree[c] !in routes)
  }

  /** Everything nearer than the new cells is closed, still to be looked at, or the given cell. */
  ghost predicate Frontier(g: Grid, tree: Tree, k: nat, todo: seq<Route>, grown: seq<Route>, last: int)
    requires Shape(g) && forall c :: c in tree ==> IsCell(g, c)
  {
    && (forall c {:trigger Closed(g, tree, c)} :: c in tree && |tree[c]| <= k ==> Closed(g, tree, c))
    && (forall c {:trigger Closed(g, tree, c)} :: c in tree && |tree[c]| == k + 1 ==>
          Closed(g, tree, c) || tree[c] in todo || c == last)
    && (forall c :: c in tree && |tree[c]| == k + 2 ==> tree[c] in grown)
    && (forall i :: 0 <= i < |todo| ==> |todo[i]| <= k + 1)
  }

  // ----- The order of the search -----

  /** Side d is open at a and leads to b. */
  predicate Goes(g: Grid, a: int, d: Side, b: int) {
    Shape(g) && IsCell(g, a) && CanStep(g, a, d) && Neighbour(g, a, d) == b
  }

  /** The least side on which a step from a to b can be made. */
  function StepSide(g: Grid, a: int, b: int): (d: Side)
    ensures (exists e: Side :: Goes(g, a, e, b)) ==> Goes(g, a, d, b)
    ensures forall e: Side :: Goes(g, a, e, b) ==> d <= e
  {
    if Goes(g, a, 0, b) then 0 else if Goes(g, a, 1, b) then 1 else if Goes(g, a, 2, b) then 2 else 3
  }

  /** The sides of all steps of a walk. */
  function Sides(g: Grid, p: Route): (s: seq<Side>)
    ensures |s| == if p == [] then 0 else |p| - 1
  {
    if |p| < 2 then [] else Sides(g, p[..|p| - 1]) + [StepSide(g, p[|p| - 2], p[|p| - 1])]
  }

  /** Sides as the digits of a number. */
  function Value(s: seq<Side>): nat {
    if s == [] then 0 else 4 * Value(s[..|s| - 1]) + s[|s| - 1]
  }

  function Key(g: Grid, p: Route): nat {
    Value(Sides(g, p))
  }

  lemma KeyOfLonger(g: Grid, p: Route, c: int)
    requires p != []
    ensures Key(g, p + [c]) == 4 * Key(g, p) + StepSide(g, Last(p), c)
  {
    assert (p + [c])[..|p|] == p;
    assert (Sides(g, p) + [StepSide(g, Last(p), c)])[..|p| - 1] == Sides(g, p);
  }

  /** Shorter routes come first, and of two equally long ones that with the smaller number. */
  predicate Earlier(g: Grid, p: Route, q: Route) {
    |p| < |q| || (|p| == |q| && Key(g, p) < Key(g, q))
  }

  predicate Sorted(g: Grid, routes: seq<Route>) {
    forall i, j :: 0 <= i < j < |routes| ==> Earlier(g, routes[i], routes[j])
  }

  /** No cell of the level before leads to c by an earlier route and side. */
  ghost predicate FirstComer(g: Grid, tree: Tree, c: int)
    requires c in tree
  {
    forall b, e: Side {:trigger Goes(g, b, e, c)} :: b in tree && |tree[b]| + 1 == |tree[c]| && Goes(g, b, e, c) ==>
      Key(g, tree[c]) <= 4 * Key(g, tree[b]) + e
  }

  ghost predicate FirstComers(g: Grid, tree: Tree) {
    forall c {:trigger FirstComer(g, tree, c)} :: c in tree ==> FirstComer(g, tree, c)
  }

  /** All grown routes come before what the routes in todo can grow. */
  ghost predicate GrownFirst(g: Grid, k: nat, grown: seq<Route>, todo: seq<Route>) {
    && (forall i :: 0 <= i < |grown| ==> |grown[i]| == k + 2)
    && (forall i, j :: 0 <= i < |grown| && 0 <= j < |todo| && |todo[j]| == k + 1 ==>
          Key(g, grown[i]) < 4 * Key(g, todo[j]))
  }

  ghost predicate SweepOrder(g: Grid, tree: Tree, k: nat, kept: seq<Route>, todo: seq<Route>, grown: seq<Route>) {
    FirstComers(g, tree) && Sorted(g, kept + todo + grown) && GrownFirst(g, k, grown, todo)
  }

  ghost predicate LookOrder(g: Grid, tree: Tree, k: nat, kept: seq<Route>, todo: seq<Route>, grown: seq<Route>,
                            route: Route, d: nat) {
    && FirstComers(g, tree) && Sorted(g, kept + todo + grown) && GrownFirst(g, k, grown, todo)
    && Sorted(g, kept + [route] + todo)
    && (|route| == k + 1 ==> forall i :: 0 <= i < |grown| ==> Key(g, grown[i]) < 4 * Key(g, route) + d)
  }

  lemma SortedWithout(g: Grid, a: seq<Route>, route: Route, b: seq<Route>)
    requires Sorted(g, a + [route] + b)
    ensures Sorted(g, a + b)
  {
    var l, l' := a + [route] + b, a + b;
    forall i | 0 <= i < |l'| ensures l'[i] == l[if i < |a| then i else i + 1] {
    }
  }

  lemma SortedPart(g: Grid, a: seq<Route>, b: seq<Route>)
    requires Sorted(g, a + b)
    ensures Sorted(g, a)
  {
    forall i | 0 <= i < |a| ensures a[i] == (a + b)[i] {
    }
  }

  lemma OpenOrder(g: Grid, tree: Tree, k: nat, kept: seq<Route>, route: Route, todo: seq<Route>, grown: seq<Route>)
    requires SweepOrder(g, tree, k, kept, [route] + todo, grown)
    ensures LookOrder(g, tree, k, kept, todo, grown, route, 0)
  {
    var all := [route] + todo;
    assert all[0] == route && forall j :: 0 <= j < |todo| ==> all[j + 1] == todo[j];
    assert kept + all + grown == kept + [route] + (todo + grown) == (kept + [route] + todo) + grown;
    SortedWithout(g, kept, route, todo + grown);
    assert kept + (todo + grown) == kept + todo + grown;
    SortedPart(g, kept + [route] + todo, grown);
    hide Sorted, Key;
    forall i, j | 0 <= i < |grown| && 0 <= j < |todo| && |todo[j]| == k + 1
      ensures Key(g, grown[i]) < 4 * Key(g, todo[j])
    {
      assert all[j + 1] == todo[j];
    }
  }

  /** Reached by route and side d first, nb is a first comer, and its route comes after all grown ones. */
  lemma GrowFirstComer(g: Grid, tree: Tree, k: nat, kept: seq<Route>, todo: seq<Route>, grown: seq<Route>,
                       route: Route, d: Side)
    requires |route| == k + 1 && LookOrder(g, tree, k, kept, todo, grown, route, d)
    requires Shape(g) && Rooted(g, tree, k + 2) && Frontier(g, tree, k, todo, grown, Last(route))
    requires Last(route) in tree && tree[Last(route)] == route && IsCell(g, Last(route))
    requires forall e: Side :: e < d && CanStep(g, Last(route), e) ==> Neighbour(g, Last(route), e) in tree
    requires CanStep(g, Last(route), d) && Neighbour(g, Last(route), d) !in tree
    ensures var nb := Neighbour(g, Last(route), d);
            && Key(g, route + [nb]) == 4 * Key(g, route) + d
            && FirstComers(g, tree[nb := route + [nb]])
  {
    var a, nb := Last(route), Neighbour(g, Last(route), d);
    var longer := route + [nb];
    var tree' := tree[nb := longer];
    KeyOfLonger(g, route, nb);
    assert Goes(g, a, d, nb);
    assert StepSide(g, a, nb) == d;
    hide Key, StepSide, Sorted, Frontier, CanStep, MazeGrid.Neighbour;
    forall b, e: Side | b in tree' && |tree'[b]| + 1 == |longer| && Goes(g, b, e, nb)
      ensures Key(g, longer) <= 4 * Key(g, tree'[b]) + e
    {
      assert b != nb;
      StillToLookAt(g, tree, k, todo, grown, a, nb, b, e);
      if b != a { SortedAfter(g, kept, route, todo, tree[b]); }
    }
    assert FirstComer(g, tree', nb);
    forall c | c in tree' ensures FirstComer(g, tree', c) {
      if c != nb {
        assert FirstComer(g, tree, c);
      }
    }
  }

  /** A cell on the current level with an open neighbour outside the tree is still to be looked at. */
  lemma StillToLookAt(g: Grid, tree: Tree, k: nat, todo: seq<Route>, grown: seq<Route>, a: int, nb: int,
                      b: int, e: Side)
    requires Shape(g) && Rooted(g, tree, k + 2) && Frontier(g, tree, k, todo, grown, a)
    requires b in tree && |tree[b]| == k + 1 && Goes(g, b, e, nb) && nb !in tree
    ensures tree[b] in todo || b == a
  {
    hide CanStep, MazeGrid.Neighbour;
    assert !Closed(g, tree, b);
  }

  lemma SortedAfter(g: Grid, a: seq<Route>, route: Route, b: seq<Route>, q: Route)
    requires Sorted(g, a + [route] + b) && q in b
    ensures Earlier(g, route, q)
  {
    var j :| 0 <= j < |b| && b[j] == q;
    var l := a + [route] + b;
    assert l[|a|] == route && l[|a| + 1 + j] == q;
  }

  lemma GrowOrder(g: Grid, tree: Tree, tree': Tree, k: nat, kept: seq<Route>, todo: seq<Route>, grown: seq<Route>,
                  route: Route, d: Side, longer: Route)
    requires LookOrder(g, tree, k, kept, todo, grown, route, d) && |route| == k + 1 && |longer| == k + 2
    requires forall i :: 0 <= i < |todo| ==> |todo[i]| <= k + 1
    requires Key(g, longer) == 4 * Key(g, route) + d && FirstComers(g, tree')
    ensures LookOrder(g, tree', k, kept, todo, grown + [longer], route, d + 1)
  {
    hide Key, FirstComers, Sorted, Earlier;
    KeptAreShort(g, kept, route, todo);
    GrownLast(g, k, kept + todo, grown, longer);
    assert kept + todo + grown + [longer] == kept + todo + (grown + [longer]);
    forall j | 0 <= j < |todo| && |todo[j]| == k + 1 ensures Key(g, longer) < 4 * Key(g, todo[j]) {
      EarlierKey(g, kept, route, todo, todo[j]);
    }
  }

  lemma KeptAreShort(g: Grid, a: seq<Route>, route: Route, b: seq<Route>)
    requires Sorted(g, a + [route] + b)
    ensures forall i :: 0 <= i < |a| ==> |a[i]| <= |route|
  {
    hide Key;
    var l := a + [route] + b;
    assert l[|a|] == route;
    forall i | 0 <= i < |a| ensures |a[i]| <= |route| {
      assert l[i] == a[i] && Earlier(g, l[i], l[|a|]);
    }
  }

  lemma EarlierKey(g: Grid, a: seq<Route>, route: Route, b: seq<Route>, q: Route)
    requires Sorted(g, a + [route] + b) && q in b && |q| == |route|
    ensures Key(g, route) < Key(g, q)
  {
    SortedAfter(g, a, route, b, q);
  }

  lemma GrownLast(g: Grid, k: nat, old': seq<Route>, grown: seq<Route>, longer: Route)
    requires Sorted(g, old' + grown) && |longer| == k + 2
    requires forall i :: 0 <= i < |old'| ==> |old'[i]| <= k + 1
    requires forall i :: 0 <= i < |grown| ==> |grown[i]| == k + 2 && Key(g, grown[i]) < Key(g, longer)
    ensures Sorted(g, old' + grown + [longer])
  {
    hide Key;
    SortedConcat(g, old' + grown, [longer]);
  }

  lemma SortedConcat(g: Grid, a: seq<Route>, b: seq<Route>)
    requires Sorted(g, a) && Sorted(g, b)
    requires forall i, j :: 0 <= i < |a| && 0 <= j < |b| ==> Earlier(g, a[i], b[j])
    ensures Sorted(g, a + b)
  {
    hide Earlier;
  }

  lemma SortedRest(g: Grid, a: seq<Route>, b: seq<Route>)
    requires Sorted(g, a + b)
    ensures Sorted(g, b)
  {
    forall i | 0 <= i < |b| ensures b[i] == (a + b)[|a| + i] {
    }
  }

  lemma StayOrder(g: Grid, tree: Tree, k: nat, kept: seq<Route>, todo: seq<Route>, grown: seq<Route>,
                  route: Route, d: nat)
    requires LookOrder(g, tree, k, kept, todo, grown, route, d)
    ensures LookOrder(g, tree, k, kept, todo, grown, route, d + 1)
  {
  }

  lemma CloseOrder(g: Grid, tree: Tree, k: nat, kept: seq<Route>, route: Route, todo: seq<Route>, grown: seq<Route>,
                   extended: bool)
    requires LookOrder(g, tree, k, kept, todo, grown, route, 4) && |route| <= k + 1
    ensures SweepOrder(g, tree, k, if extended then kept else kept + [route], todo, grown)
  {
    if !extended {
      hide Key, FirstComers;
      var a := kept + [route] + todo;
      SortedRest(g, kept + todo, grown);
      forall i, j | 0 <= i < |a| && 0 <= j < |grown| ensures Earlier(g, a[i], grown[j]) {
        if i == |kept| {
        } else {
          var l := kept + todo + grown;
          assert a[i] == l[if i < |kept| then i else i - 1] && grown[j] == l[|kept + todo| + j];
        }
      }
      hide Sorted, Earlier;
      SortedConcat(g, a, grown);
    }
  }

  /** Inside a round, before looking at the routes in todo. */
  ghost predicate SweepInv(g: Grid, kept: seq<Route>, todo: seq<Route>, s: Search, tree: Tree, k: nat) {
    && TreeInv(g, s, tree, k + 2)
    && OnTree(tree, kept + todo + s.routes) && LeavesListed(tree, kept + todo + s.routes)
    && Frontier(g, tree, k, todo, s.routes, -1)
    && SweepOrder(g, tree, k, kept, todo, s.routes)
  }

  /** Between two rounds all routes are still to be looked at: cells nearer than k + 1 are closed,
      and a cell that is not closed is still the end of a route. */
  ghost predicate RoundInv(g: Grid, s: Search, tree: Tree, k: nat) {
    SweepInv(g, [], s.routes, s.(routes := []), tree, k)
  }

  /** While one route is being extended: the other routes are exactly the other leaves. */
  ghost predicate OthersListed(tree: Tree, others: seq<Route>, route: Route, extended: bool) {
    && OnTree(tree, others) && route !in others
    && route != [] && Last(route) in tree && tree[Last(route)] == route
    && (forall c {:trigger HasChild(tree, c)} :: c in tree && c != Last(route) ==>
          (HasChild(tree, c) <==> tree[c] !in others))
    && (HasChild(tree, Last(route)) <==> extended)
  }

  /** Inside a pass over one route, d of its four sides done; `extended` says whether any
      of them extended it. */
  ghost predicate LookInv(g: Grid, kept: seq<Route>, todo: seq<Route>, s: Search, tree: Tree, k: nat,
                          route: Route, d: nat, extended: bool) {
    && TreeInv(g, s, tree, k + 2)
    && OthersListed(tree, kept + todo + s.routes, route, extended)
    && |route| <= k + 1
    && Frontier(g, tree, k, todo, s.routes, Last(route))
    && (forall e: Side :: e < d && CanStep(g, Last(route), e) ==> Neighbour(g, Last(route), e) in tree)
    && LookOrder(g, tree, k, kept, todo, s.routes, route, d)
  }

  lemma GrowRooted(g: Grid, tree: Tree, height: nat, route: Route, nb: int)
    requires Shape(g) && Rooted(g, tree, height) && |route| < height
    requires route != [] && Last(route) in tree && tree[Last(route)] == route
    requires IsCell(g, Last(route)) && Step(g, Last(route), nb) && IsCell(g, nb) && nb !in tree
    ensures Rooted(g, tree[nb := route + [nb]], height)
  {
    var longer := route + [nb];
    var tree' := tree[nb := longer];
    assert longer[..|longer| - 1] == route;
    forall c | c in tree' ensures Node(g, tree', c) && |tree'[c]| <= height {
      if c != nb {
        assert Node(g, tree, c);
      }
    }
  }

  lemma GrowTree(g: Grid, s: Search, tree: Tree, height: nat, route: Route, d: Side)
    requires TreeInv(g, s, tree, height) && |route| < height
    requires route != [] && Last(route) in tree && tree[Last(route)] == route
    requires CanStep(g, Last(route), d) && Neighbour(g, Last(route), d) !in tree
    ensures var nb := Neighbour(g, Last(route), d);
            TreeInv(g, Look(g, s, route, d), tree[nb := route + [nb]], height)
  {
    var c := Last(route);
    NeighbourInvolution(g, c, d);
    var nb := Neighbour(g, c, d);
    GrowRooted(g, tree, height, route, nb);
    var s', tree' := Look(g, s, route, d), tree[nb := route + [nb]];
    assert s'.visited == s.visited[nb := true];
    forall x ensures x in tree' <==> IsCell(g, x) && s'.visited[x] {
    }
  }

  lemma GrowHasChild(g: Grid, tree: Tree, height: nat, route: Route, nb: int, c: int)
    requires Shape(g) && Rooted(g, tree, height) && nb !in tree
    requires route != [] && Last(route) in tree
    ensures HasChild(tree[nb := route + [nb]], c) <==> HasChild(tree, c) || c == Last(route)
    ensures !HasChild(tree, nb)
  {
    var tree' := tree[nb := route + [nb]];
    assert Parent(tree'[nb]) == Last(route);
    if HasChild(tree', c) && c != Last(route) {
      var n :| n in tree' && |tree'[n]| >= 2 && Parent(tree'[n]) == c;
      assert tree[n] == tree'[n];
    }
    if HasChild(tree, c) {
      var n :| n in tree && |tree[n]| >= 2 && Parent(tree[n]) == c;
      assert tree'[n] == tree[n];
    }
    forall n | n in tree && |tree[n]| >= 2 ensures Parent(tree[n]) in tree {
      assert Node(g, tree, n);
    }
  }

  lemma GrowOthers(g: Grid, tree: Tree, height: nat, others: seq<Route>, route: Route, extended: bool, nb: int)
    requires Shape(g) && Rooted(g, tree, height) && OthersListed(tree, others, route, extended) && nb !in tree
    ensures OthersListed(tree[nb := route + [nb]], others + [route + [nb]], route, true)
  {
    var longer := route + [nb];
    var tree' := tree[nb := longer];
    forall c | c in tree' && c != Last(route)
      ensures HasChild(tree', c) <==> tree'[c] !in others + [longer]
    {
      GrowHasChild(g, tree, height, route, nb, c);
      assert c in tree ==> tree'[c] == tree[c] != longer;
    }
    GrowHasChild(g, tree, height, route, nb, Last(route));
  }

  lemma GrowFrontier(g: Grid, tree: Tree, k: nat, todo: seq<Route>, grown: seq<Route>, route: Route, nb: int)
    requires Shape(g) && Rooted(g, tree, k + 2) && |route| == k + 1
    requires Frontier(g, tree, k, todo, grown, Last(route)) && IsCell(g, nb) && nb !in tree
    ensures forall c :: c in tree[nb := route + [nb]] ==> IsCell(g, c)
    ensures Frontier(g, tree[nb := route + [nb]], k, todo, grown + [route + [nb]], Last(route))
  {
    var tree' := tree[nb := route + [nb]];
    forall c | c in tree && Closed(g, tree, c) ensures Closed(g, tree', c) {
    }
  }

  lemma GrowLook(g: Grid, kept: seq<Route>, todo: seq<Route>, s: Search, tree: Tree, k: nat,
                 route: Route, d: Side, extended: bool)
    requires LookInv(g, kept, todo, s, tree, k, route, d, extended) && |route| == k + 1
    requires CanStep(g, Last(route), d) && Neighbour(g, Last(route), d) !in tree
    ensures var nb := Neighbour(g, Last(route), d);
            LookInv(g, kept, todo, Look(g, s, route, d), tree[nb := route + [nb]], k, route, d + 1, true)
  {
    hide LookOrder, FirstComers;
    var nb := Neighbour(g, Last(route), d);
    NeighbourInvolution(g, Last(route), d);
    hide MazeGrid.Neighbour;
    GrowTree(g, s, tree, k + 2, route, d);
    GrowOthers(g, tree, k + 2, kept + todo + s.routes, route, extended, nb);
    GrowFrontier(g, tree, k, todo, s.routes, route, nb);
    GrowFirstComer(g, tree, k, kept, todo, s.routes, route, d);
    GrowOrder(g, tree, tree[nb := route + [nb]], k, kept, todo, s.routes, route, d, route + [nb]);
    assert kept + todo + s.routes + [route + [nb]] == kept + todo + (s.routes + [route + [nb]]);
  }

  lemma LookStep(g: Grid, kept: seq<Route>, todo: seq<Route>, s: Search, tree: Tree, k: nat,
                 route: Route, d: Side, extended: bool) returns (tree': Tree)
    requires LookInv(g, kept, todo, s, tree, k, route, d, extended)
    ensures EndsInGrid(g, route)
    ensures var s' := Look(g, s, route, d);
            LookInv(g, kept, todo, s', tree', k, route, d + 1, extended || |s'.routes| > |s.routes|)
  {
    tree' := tree;
    var c := Last(route);
    StayOrder(g, tree, k, kept, todo, s.routes, route, d);
    hide LookOrder;
    if CanStep(g, c, d) {
      NeighbourInvolution(g, c, d);
      var nb := Neighbour(g, c, d);
      if nb !in tree {
        assert !Closed(g, tree, c);
        GrowLook(g, kept, todo, s, tree, k, route, d, extended);
        tree' := tree[nb := route + [nb]];
      }
    }
  }

  lemma {:induction false} LookAll(g: Grid, kept: seq<Route>, todo: seq<Route>, s: Search, tree: Tree, k: nat,
                                   route: Route, d: nat) returns (tree': Tree)
    requires d <= 4 && LookInv(g, kept, todo, s, tree, k, route, 0, false)
    ensures EndsInGrid(g, route)
    ensures var s' := LookAround(g, s, route, d);
            LookInv(g, kept, todo, s', tree', k, route, d, |s'.routes| > |s.routes|)
  {
    if d == 0 {
      tree' := tree;
    } else {
      var tree1 := LookAll(g, kept, todo, s, tree, k, route, d - 1);
      var s1 := LookAround(g, s, route, d - 1);
      tree' := LookStep(g, kept, todo, s1, tree1, k, route, d - 1, |s1.routes| > |s.routes|);
    }
  }

  lemma TakeOut(tree: Tree, a: seq<Route>, route: Route, b: seq<Route>)
    requires OnTree(tree, a + [route] + b)
    ensures OnTree(tree, a + b) && route !in a + b
  {
    var l, l' := a + [route] + b, a + b;
    assert l[|a|] == route;
    forall i | 0 <= i < |l'| ensures l'[i] == l[if i < |a| then i else i + 1] {
    }
  }

  lemma PutBack(tree: Tree, a: seq<Route>, route: Route, b: seq<Route>)
    requires OnTree(tree, a + b) && route !in a + b
    requires route != [] && Last(route) in tree && tree[Last(route)] == route
    ensures OnTree(tree, a + [route] + b)
  {
    var l, l' := a + [route] + b, a + b;
    forall i | 0 <= i < |l| && i != |a| ensures l[i] == l'[if i < |a| then i else i - 1] {
    }
  }

  lemma OpenOthers(tree: Tree, a: seq<Route>, route: Route, b: seq<Route>)
    requires OnTree(tree, a + [route] + b) && LeavesListed(tree, a + [route] + b)
    requires forall c :: c in tree ==> tree[c] != [] && Last(tree[c]) == c
    ensures OthersListed(tree, a + b, route, false)
  {
    var l, l' := a + [route] + b, a + b;
    TakeOut(tree, a, route, b);
    assert l[|a|] == route;
    forall c | c in tree && c != Last(route) ensures tree[c] in l <==> tree[c] in l' {
    }
  }

  lemma CloseOthers(tree: Tree, a: seq<Route>, route: Route, todo: seq<Route>, grown: seq<Route>)
    requires OthersListed(tree, a + todo + grown, route, false)
    requires forall c :: c in tree ==> tree[c] != [] && Last(tree[c]) == c
    ensures OnTree(tree, (a + [route]) + todo + grown) && LeavesListed(tree, (a + [route]) + todo + grown)
  {
    var b := todo + grown;
    var l, l' := a + [route] + b, a + b;
    assert l == (a + [route]) + todo + grown && l' == a + todo + grown;
    PutBack(tree, a, route, b);
    assert l[|a|] == route;
    forall c | c in tree ensures HasChild(tree, c) <==> tree[c] !in l {
    }
  }

  lemma OpenFrontier(g: Grid, tree: Tree, k: nat, route: Route, todo: seq<Route>, grown: seq<Route>)
    requires Shape(g) && Rooted(g, tree, k + 2) && route != []
    requires Frontier(g, tree, k, [route] + todo, grown, -1)
    ensures Frontier(g, tree, k, todo, grown, Last(route)) && |route| <= k + 1
  {
    var all := [route] + todo;
    assert all[0] == route;
    forall i | 0 <= i < |todo| ensures |todo[i]| <= k + 1 {
      assert all[i + 1] == todo[i];
    }
    forall c | c in tree && |tree[c]| == k + 1
      ensures Closed(g, tree, c) || tree[c] in todo || c == Last(route)
    {
      assert Node(g, tree, c);
    }
  }

  lemma OpenRoute(g: Grid, kept: seq<Route>, route: Route, todo: seq<Route>, s: Search, tree: Tree, k: nat)
    requires SweepInv(g, kept, [route] + todo, s, tree, k)
    ensures LookInv(g, kept, todo, s, tree, k, route, 0, false)
  {
    assert kept + ([route] + todo) + s.routes == kept + [route] + (todo + s.routes);
    assert kept + todo + s.routes == kept + (todo + s.routes);
    OpenOthers(tree, kept, route, todo + s.routes);
    OpenFrontier(g, tree, k, route, todo, s.routes);
    hide SweepOrder, LookOrder;
    OpenOrder(g, tree, k, kept, route, todo, s.routes);
  }

  lemma CloseFrontier(g: Grid, tree: Tree, k: nat, route: Route, todo: seq<Route>, grown: seq<Route>)
    requires Shape(g) && Rooted(g, tree, k + 2) && route != [] && |route| <= k + 1
    requires Last(route) in tree && tree[Last(route)] == route
    requires Frontier(g, tree, k, todo, grown, Last(route))
    requires forall e: Side :: CanStep(g, Last(route), e) ==> Neighbour(g, Last(route), e) in tree
    ensures Frontier(g, tree, k, todo, grown, -1)
  {
    assert Closed(g, tree, Last(route));
  }

  lemma CloseRoute(g: Grid, kept: seq<Route>, route: Route, todo: seq<Route>, s: Search, tree: Tree, k: nat,
                   extended: bool)
    requires LookInv(g, kept, todo, s, tree, k, route, 4, extended)
    ensures SweepInv(g, if extended then kept else kept + [route], todo, s, tree, k)
  {
    hide SweepOrder, LookOrder;
    CloseFrontier(g, tree, k, route, todo, s.routes);
    CloseOrder(g, tree, k, kept, route, todo, s.routes, extended);
    if !extended {
      CloseOthers(tree, kept, route, todo, s.routes);
    }
  }

  lemma RouteTree(g: Grid, kept: seq<Route>, route: Route, todo: seq<Route>, s: Search, tree: Tree, k: nat)
    returns (tree': Tree)
    requires SweepInv(g, kept, [route] + todo, s, tree, k)
    ensures EndsInGrid(g, route)
    ensures var s' := LookAround(g, s, route, 4);
            SweepInv(g, if |s'.routes| > |s.routes| then kept else kept + [route], todo, s', tree', k)
  {
    OpenRoute(g, kept, route, todo, s, tree, k);
    tree' := LookAll(g, kept, todo, s, tree, k, route, 4);
    var s' := LookAround(g, s, route, 4);
    CloseRoute(g, kept, route, todo, s', tree', k, |s'.routes| > |s.routes|);
  }

  lemma {:induction false} SweepTree(g: Grid, routes: seq<Route>, n: nat, s: Search, tree: Tree, k: nat)
    returns (tree': Tree)
    requires n <= |routes| && AllEndInGrid(g, routes)
    requires SweepInv(g, [], routes, s, tree, k)
    ensures var (kept, s') := Sweep(g, routes, n, s);
            SweepInv(g, kept, routes[n..], s', tree', k)
  {
    if n == 0 {
      assert routes[n..] == routes;
      tree' := tree;
    } else {
      var tree1 := SweepTree(g, routes, n - 1, s, tree, k);
      var (kept, s1) := Sweep(g, routes, n - 1, s);
      assert routes[n - 1..] == [routes[n - 1]] + routes[n..];
      tree' := RouteTree(g, kept, routes[n - 1], routes[n..], s1, tree1, k);
    }
  }

  /** A complete search tree: every cell of it is closed, its leaves are the routes. */
  ghost predicate Complete(g: Grid, s: Search, tree: Tree, height: nat) {
    && TreeInv(g, s, tree, height)
    && OnTree(tree, s.routes) && LeavesListed(tree, s.routes)
    && (forall c {:trigger Closed(g, tree, c)} :: c in tree ==> Closed(g, tree, c))
    && FirstComers(g, tree) && Sorted(g, s.routes)
  }

  lemma NextFrontier(g: Grid, tree: Tree, k: nat, kept: seq<Route>, grown: seq<Route>)
    requires Shape(g) && Rooted(g, tree, k + 2) && OnTree(tree, kept + grown)
    requires Frontier(g, tree, k, [], grown, -1)
    ensures Frontier(g, tree, k + 1, kept + grown, [], -1)
    ensures grown == [] ==> forall c :: c in tree ==> Closed(g, tree, c)
  {
    var routes := kept + grown;
    forall i | 0 <= i < |routes| ensures |routes[i]| <= k + 2 {
      assert Node(g, tree, Last(routes[i]));
    }
    forall c | c in tree ensures |tree[c]| <= k + 2 && c != -1 {
      assert Node(g, tree, c);
    }
  }

  lemma RoundEnd(g: Grid, kept: seq<Route>, s: Search, tree: Tree, k: nat)
    requires SweepInv(g, kept, [], s, tree, k)
    ensures var s' := s.(routes := kept + s.routes);
            if s.routes == [] then Complete(g, s', tree, k + 2) else RoundInv(g, s', tree, k + 1)
  {
    assert kept + [] + s.routes == kept + s.routes == [] + (kept + s.routes) + [];
    hide FirstComers, Sorted;
    NextFrontier(g, tree, k, kept, s.routes);
  }

  lemma RoundTree(g: Grid, s: Search, tree: Tree, k: nat) returns (tree': Tree)
    requires RoundInv(g, s, tree, k) && AllEndInGrid(g, s.routes)
    ensures var (more, s') := Round(g, s);
            if more then RoundInv(g, s', tree', k + 1) else Complete(g, s', tree', k + 2)
  {
    var s0 := s.(routes := []);
    tree' := SweepTree(g, s.routes, |s.routes|, s0, tree, k);
    var (kept, s1) := Sweep(g, s.routes, |s.routes|, s0);
    assert s.routes[|s.routes|..] == [];
    RoundEnd(g, kept, s1, tree', k);
  }

  lemma {:induction false} RunTree(g: Grid, s: Search, tree: Tree, k: nat) returns (tree': Tree, height: nat)
    requires RoundInv(g, s, tree, k) && AllEndInGrid(g, s.routes)
    ensures Complete(g, Run(g, s), tree', height)
    decreases Unvisited(s.visited)
  {
    tree' := RoundTree(g, s, tree, k);
    height := k + 2;
    var (more, s') := Round(g, s);
    if !more {
    } else {
      tree', height := RunTree(g, s', tree', k + 1);
    }
  }

  lemma StartTree(g: Grid) returns (tree: Tree)
    requires Shape(g) && IsCell(g, g.entrance)
    ensures RoundInv(g, Start(g), tree, 0)
  {
    hide SweepOrder, CanStep, MazeGrid.Neighbour, Closed;
    tree := map[g.entrance := [g.entrance]];
    assert Node(g, tree, g.entrance);
    StartOrder(g, tree);
  }

  lemma StartOrder(g: Grid, tree: Tree)
    requires tree == map[g.entrance := [g.entrance]]
    ensures SweepOrder(g, tree, 0, [], [[g.entrance]], [])
  {
    hide Key, Goes;
    assert FirstComer(g, tree, g.entrance);
  }

  /** The search ends with a complete tree. */
  lemma BfsTree(g: Grid) returns (tree: Tree, height: nat)
    requires Shape(g) && IsCell(g, g.entrance)
    ensures Complete(g, Bfs(g), tree, height)
  {
    tree := StartTree(g);
    tree, height := RunTree(g, Start(g), tree, 0);
  }

  // ----- What the tree says about routes and reachability -----

  lemma {:induction false} TreeWalk(g: Grid, tree: Tree, height: nat, c: int)
    requires Shape(g) && Rooted(g, tree, height) && c in tree
    ensures Joins(g, tree[c], g.entrance, c)
    decreases |tree[c]|
  {
    assert Node(g, tree, c);
    if |tree[c]| >= 2 {
      var p := Parent(tree[c]);
      TreeWalk(g, tree, height, p);
      assert tree[c] == tree[p] + [c];
      ExtendWalk(g, tree[p], c);
    } else {
      assert tree[c] == [c];
    }
  }

  /** Every prefix of a tree route is the tree route of its own last cell. */
  lemma {:induction false} TreePrefix(g: Grid, tree: Tree, height: nat, c: int, j: nat)
    requires Shape(g) && Rooted(g, tree, height) && c in tree && 1 <= j <= |tree[c]|
    ensures tree[c][j - 1] in tree && tree[tree[c][j - 1]] == tree[c][..j]
    decreases |tree[c]|
  {
    assert Node(g, tree, c);
    var route := tree[c];
    if j < |route| {
      TreePrefix(g, tree, height, Parent(route), j);
      assert tree[Parent(route)][..j] == route[..j];
    } else {
      assert route[..j] == route;
    }
  }

  /** No walk from the entrance reaches a cell sooner than the tree does. */
  lemma {:induction false} TreeShortest(g: Grid, s: Search, tree: Tree, height: nat, p: Route)
    requires Complete(g, s, tree, height) && IsWalk(g, p) && p[0] == g.entrance
    ensures Last(p) in tree && |tree[Last(p)]| <= |p|
  {
    if |p| < 2 {
    } else {
      var q := p[..|p| - 1];
      TreeShortest(g, s, tree, height, q);
      assert Step(g, p[|p| - 2], p[|p| - 1]);
      assert Closed(g, tree, Last(q));
    }
  }

  ghost predicate Shortest(g: Grid, p: Route, c: int)
    requires Shape(g)
  {
    Joins(g, p, g.entrance, c) && forall q :: Joins(g, q, g.entrance, c) ==> |p| <= |q|
  }

  lemma TreeIsShortest(g: Grid, s: Search, tree: Tree, height: nat, c: int)
    requires Complete(g, s, tree, height) && c in tree
    ensures Shortest(g, tree[c], c)
  {
    TreeWalk(g, tree, height, c);
    forall q | Joins(g, q, g.entrance, c) ensures |tree[c]| <= |q| {
      TreeShortest(g, s, tree, height, q);
    }
  }

  lemma TreeDistinct(g: Grid, tree: Tree, height: nat, c: int)
    requires Shape(g) && Rooted(g, tree, height) && c in tree
    ensures forall i, j :: 0 <= i < j < |tree[c]| ==> tree[c][i] != tree[c][j]
  {
    forall i, j | 0 <= i < j < |tree[c]| ensures tree[c][i] != tree[c][j] {
      TreePrefix(g, tree, height, c, i + 1);
      TreePrefix(g, tree, height, c, j + 1);
      assert |tree[c][..i + 1]| < |tree[c][..j + 1]|;
    }
  }

  /** The search visits exactly the cells that can be reached from the entrance. */
  lemma VisitedIsReachable(g: Grid)
    requires Shape(g) && IsCell(g, g.entrance)
    ensures forall c :: IsCell(g, c) ==> (Bfs(g).visited[c] <==> Reaches(g, g.entrance, c))
  {
    var tree, height := BfsTree(g);
    forall c | IsCell(g, c) ensures Bfs(g).visited[c] <==> Reaches(g, g.entrance, c) {
      if Bfs(g).visited[c] {
        TreeWalk(g, tree, height, c);
      }
      if Reaches(g, g.entrance, c) {
        var p :| Joins(g, p, g.entrance, c);
        TreeShortest(g, Bfs(g), tree, height, p);
      }
    }
  }

  /** m_bAllCellsReachable, decided by counting the visited cells. */
  lemma AllReachableIffAllVisited(g: Grid)
    requires Shape(g) && IsCell(g, g.entrance)
    ensures Unvisited(Bfs(g).visited) == 0 <==> AllReachable(g)
  {
    VisitedIsReachable(g);
    AllTallied(Bfs(g).visited);
  }

  /** m_vBestRoute is a shortest walk from the entrance to the exit, without repetitions;
      it is empty when the exit is the entrance itself or cannot be reached. */
  lemma BestRouteIsShortest(g: Grid)
    requires Shape(g) && IsCell(g, g.entrance)
    ensures var best := Bfs(g).best;
            if g.exit != g.entrance && Reaches(g, g.entrance, g.exit)
            then && Shortest(g, best, g.exit)
                 && forall i, j :: 0 <= i < j < |best| ==> best[i] != best[j]
            else best == []
  {
    var tree, height := BfsTree(g);
    VisitedIsReachable(g);
    if g.exit != g.entrance && g.exit in tree {
      TreeIsShortest(g, Bfs(g), tree, height, g.exit);
      TreeDistinct(g, tree, height, g.exit);
    }
    if Reaches(g, g.entrance, g.exit) {
      var p :| Joins(g, p, g.entrance, g.exit);
      assert IsCell(g, p[|p| - 1]);
    }
  }

  /** From any tree cell some listed route runs through it. */
  lemma {:induction false} SomeRouteThrough(g: Grid, tree: Tree, height: nat, routes: seq<Route>, c: int)
    returns (i: nat)
    requires Shape(g) && Rooted(g, tree, height) && OnTree(tree, routes) && LeavesListed(tree, routes)
    requires c in tree
    ensures i < |routes| && tree[c] <= routes[i]
    decreases height - |tree[c]|
  {
    assert Node(g, tree, c);
    if HasChild(tree, c) {
      var n :| n in tree && |tree[n]| >= 2 && Parent(tree[n]) == c;
      assert Node(g, tree, n);
      i := SomeRouteThrough(g, tree, height, routes, n);
      assert tree[c] <= tree[n];
    } else {
      i :| 0 <= i < |routes| && routes[i] == tree[c];
    }
  }

  ghost predicate OnSomeRoute(routes: seq<Route>, c: int) {
    exists i :: 0 <= i < |routes| && c in routes[i]
  }

  /** m_vRoutes covers every visited cell, and its last cells are pairwise distinct. */
  lemma RoutesCoverVisited(g: Grid)
    requires Shape(g) && IsCell(g, g.entrance)
    ensures var s := Bfs(g);
            && AllEndInGrid(g, s.routes)
            && (forall i, j :: 0 <= i < j < |s.routes| ==> Last(s.routes[i]) != Last(s.routes[j]))
            && (forall c :: IsCell(g, c) && s.visited[c] ==> OnSomeRoute(s.routes, c))
  {
    var s := Bfs(g);
    var tree, height := BfsTree(g);
    forall i | 0 <= i < |s.routes| ensures EndsInGrid(g, s.routes[i]) {
      assert Node(g, tree, Last(s.routes[i]));
    }
    forall c | IsCell(g, c) && s.visited[c] ensures OnSomeRoute(s.routes, c) {
      var i := SomeRouteThrough(g, tree, height, s.routes, c);
      assert Node(g, tree, c);
      assert s.routes[i][|tree[c]| - 1] == c;
    }
  }

  /** Every initial piece of a listed route is the branch of the cell where it ends. */
  lemma PieceIsBranch(g: Grid, tree: Tree, height: nat, routes: seq<Route>, i: nat, a: nat)
    requires Shape(g) && Rooted(g, tree, height) && OnTree(tree, routes) && i < |routes| && a < |routes[i]|
    ensures routes[i][a] in tree && routes[i][..a + 1] == tree[routes[i][a]]
  {
    TreePrefix(g, tree, height, Last(routes[i]), a + 1);
  }

  /** Every initial piece of every route is a shortest walk to the cell where it ends, and two
      routes through the same cell agree from the entrance up to it. */
  lemma RoutesAreBranches(g: Grid, i: nat, a: nat, j: nat, b: nat)
    requires Shape(g) && IsCell(g, g.entrance)
    requires var r := Bfs(g).routes; i < |r| && a < |r[i]| && j < |r| && b < |r[j]|
    ensures var r := Bfs(g).routes;
            && Shortest(g, r[i][..a + 1], r[i][a])
            && (r[i][a] == r[j][b] ==> r[i][..a + 1] == r[j][..b + 1])
  {
    var tree, height := BfsTree(g);
    PieceIsBranch(g, tree, height, Bfs(g).routes, i, a);
    PieceIsBranch(g, tree, height, Bfs(g).routes, j, b);
    TreeIsShortest(g, Bfs(g), tree, height, Bfs(g).routes[i][a]);
  }

  /** The outer loop makes at most as many rounds as there are cells. */
  lemma {:induction false} FewRounds(g: Grid, s: Search)
    requires Fits(g, s) && AllEndInGrid(g, s.routes)
    ensures Rounds(g, s) <= 1 + Unvisited(s.visited)
    decreases Unvisited(s.visited)
  {
    var (more, s1) := Round(g, s);
    if !more {
    } else {
      FewRounds(g, s1);
    }
  }

  lemma AtMostOneRoundPerCell(g: Grid)
    requires Shape(g) && IsCell(g, g.entrance)
    ensures Rounds(g, Start(g)) <= |g.cells|
  {
    FewRounds(g, Start(g));
    OneTallied(Start(g).visited, g.entrance);
  }

  /** A route that a pass could not extend is not extended where more is visited. */
  lemma KeptForGood(g: Grid, s: Search, t: Search, route: Route)
    requires Fits(g, s) && Fits(g, t) && EndsInGrid(g, route) && StillVisited(s, t)
    requires |LookAround(g, s, route, 4).routes| == |s.routes|
    ensures LookAround(g, t, route, 4) == t
  {
    LookFails(g, s, t, route, 4);
  }

  lemma {:induction false} LookFails(g: Grid, s: Search, t: Search, route: Route, d: nat)
    requires d <= 4 && Fits(g, s) && Fits(g, t) && EndsInGrid(g, route) && StillVisited(s, t)
    requires |LookAround(g, s, route, d).routes| == |s.routes|
    ensures LookAround(g, s, route, d) == s && LookAround(g, t, route, d) == t
  {
    if d == 0 {
    } else {
      LookFails(g, s, t, route, d - 1);
      if CanStep(g, Last(route), d - 1) { NeighbourInvolution(g, Last(route), d - 1); }
    }
  }

  /** A pass over the routes keeps a route that could not be extended earlier. */
  lemma {:induction false} SweepKeeps(g: Grid, s0: Search, routes: seq<Route>, n: nat, s: Search, route: Route)
    requires Fits(g, s0) && Fits(g, s) && StillVisited(s0, s) && EndsInGrid(g, route)
    requires |LookAround(g, s0, route, 4).routes| == |s0.routes|
    requires n <= |routes| && AllEndInGrid(g, routes) && route in routes[..n]
    ensures route in Sweep(g, routes, n, s).0
  {
    if routes[n - 1] == route {
      SweepAdvances(g, routes, n - 1, s);
      KeptForGood(g, s0, Sweep(g, routes, n - 1, s).1, route);
    } else {
      SweepKeeps(g, s0, routes, n - 1, s, route);
    }
  }

  lemma RoundKeeps(g: Grid, s0: Search, s: Search, route: Route)
    requires Fits(g, s0) && Fits(g, s) && StillVisited(s0, s) && EndsInGrid(g, route)
    requires |LookAround(g, s0, route, 4).routes| == |s0.routes|
    requires AllEndInGrid(g, s.routes) && route in s.routes
    ensures StillVisited(s0, Round(g, s).1) && route in Round(g, s).1.routes
  {
    var s' := s.(routes := []);
    SweepAdvances(g, s.routes, |s.routes|, s');
    assert s.routes[..|s.routes|] == s.routes;
    SweepKeeps(g, s0, s.routes, |s.routes|, s', route);
  }

  /** A route that once could not be extended never is: it is still listed at the end of the run. */
  lemma {:induction false} RunKeeps(g: Grid, s0: Search, s: Search, route: Route)
    requires Fits(g, s0) && Fits(g, s) && StillVisited(s0, s) && EndsInGrid(g, route)
    requires |LookAround(g, s0, route, 4).routes| == |s0.routes|
    requires AllEndInGrid(g, s.routes) && route in s.routes
    ensures route in Run(g, s).routes
    decreases Unvisited(s.visited)
  {
    RoundKeeps(g, s0, s, route);
    if !Round(g, s).0 {
    } else {
      RunKeeps(g, s0, Round(g, s).1, route);
    }
  }

  /** Within one pass nothing visited is forgotten either. */
  lemma {:induction false} SweepStill(g: Grid, routes: seq<Route>, m: nat, n: nat, s: Search)
    requires m <= n <= |routes| && AllEndInGrid(g, routes) && Fits(g, s)
    ensures StillVisited(Sweep(g, routes, m, s).1, Sweep(g, routes, n, s).1)
  {
    if m == n {
    } else {
      SweepStill(g, routes, m, n - 1, s);
      LookAroundAdvances(g, Sweep(g, routes, n - 1, s).1, routes[n - 1], 4);
    }
  }

  /** A kept route is one that could not be extended at its turn, in the middle of the pass. */
  lemma {:induction false} KeptFails(g: Grid, routes: seq<Route>, n: nat, s: Search, route: Route) returns (i: nat)
    requires n <= |routes| && AllEndInGrid(g, routes) && Fits(g, s) && route in Sweep(g, routes, n, s).0
    ensures i < n && routes[i] == route
    ensures var t := Sweep(g, routes, i, s).1; |LookAround(g, t, route, 4).routes| == |t.routes|
  {
    if route in Sweep(g, routes, n - 1, s).0 {
      i := KeptFails(g, routes, n - 1, s, route);
    } else {
      i := n - 1;
    }
  }

  /** A route that a pass keeps is never extended: it is still listed at the end of the run. */
  lemma KeptStays(g: Grid, s: Search, route: Route)
    requires Fits(g, s) && AllEndInGrid(g, s.routes)
    requires route in Sweep(g, s.routes, |s.routes|, s.(routes := [])).0
    ensures route in Run(g, s).routes
  {
    var s' := s.(routes := []);
    var i := KeptFails(g, s.routes, |s.routes|, s', route);
    SweepStill(g, s.routes, i, |s.routes|, s');
    if Round(g, s).0 {
      RunKeeps(g, Sweep(g, s.routes, i, s').1, Round(g, s).1, route);
    }
  }
}
