/** Which of several shortest routes the search finds, and in which order it lists its routes. The sides
    of a step are tried in the order top, right, bottom, left; so each route is the first, in the order
    of dictionaries, of all equally long walks to the same cell. */
module RouteOrder {
  import opened Cells
  import opened MazeGrid
  import opened RouteSearch

  /** Dictionary order of equally long lists. */
  predicate LexLess(a: seq<int>, b: seq<int>) {
    |a| == |b| && exists i :: 0 <= i < |a| && a[..i] == b[..i] && a[i] < b[i]
  }

  lemma LexAppend(a: seq<int>, x: int, b: seq<int>, y: int)
    requires |a| == |b|
    ensures LexLess(a + [x], b + [y]) <==> LexLess(a, b) || (a == b && x < y)
  {
    var c, d := a + [x], b + [y];
    if LexLess(c, d) {
      var i :| 0 <= i < |c| && c[..i] == d[..i] && c[i] < d[i];
      assert i < |a| ==> a[..i] == c[..i] && b[..i] == d[..i];
      assert i == |a| ==> a == c[..i] && b == d[..i];
    }
    if LexLess(a, b) {
      var i :| 0 <= i < |a| && a[..i] == b[..i] && a[i] < b[i];
      assert c[..i] == a[..i] && d[..i] == b[..i];
    }
    if a == b && x < y {
      assert c[..|a|] == d[..|a|];
    }
  }

  /** The numbers are ordered as the lists of digits are. */
  lemma {:induction false} ValueOrder(a: seq<Side>, b: seq<Side>)
    requires |a| == |b|
    ensures Value(a) == Value(b) <==> a == b
    ensures Value(a) < Value(b) <==> LexLess(a, b)
  {
    if a == [] {
    } else {
      var n := |a| - 1;
      assert Value(a) == 4 * Value(a[..n]) + a[n] && Value(b) == 4 * Value(b[..n]) + b[n];
      assert a == a[..n] + [a[n]] && b == b[..n] + [b[n]];
      hide Value, LexLess;
      ValueOrder(a[..n], b[..n]);
      LexAppend(a[..n], a[n], b[..n], b[n]);
      Digits(Value(a[..n]), a[n], Value(b[..n]), b[n]);
    }
  }

  lemma Digits(m: nat, x: Side, n: nat, y: Side)
    ensures 4 * m + x < 4 * n + y <==> m < n || (m == n && x < y)
    ensures 4 * m + x == 4 * n + y <==> m == n && x == y
  {
  }

  /** A walk is determined by where it starts and its sides. */
  lemma {:induction false} SidesDetermine(g: Grid, p: Route, q: Route)
    requires Shape(g) && IsWalk(g, p) && IsWalk(g, q) && p[0] == q[0] && Sides(g, p) == Sides(g, q)
    ensures p == q
  {
    var n := |p| - 1;
    if n == 0 {
      assert p == [p[0]] && q == [q[0]];
    } else {
      assert Sides(g, p)[..n - 1] == Sides(g, p[..n]) && Sides(g, q)[..n - 1] == Sides(g, q[..n]);
      SidesDetermine(g, p[..n], q[..n]);
      StepGoes(g, p[n - 1], p[n]);
      StepGoes(g, q[n - 1], q[n]);
      assert p == p[..n] + [p[n]] && q == q[..n] + [q[n]];
    }
  }

  lemma StepGoes(g: Grid, a: int, b: int)
    requires Shape(g) && IsCell(g, a) && Step(g, a, b)
    ensures Goes(g, a, StepSide(g, a, b), b)
  {
    var d: Side :| CanStep(g, a, d) && Neighbour(g, a, d) == b;
    assert Goes(g, a, d, b);
  }

  /** p comes before every other walk of its length between its ends. */
  ghost predicate IsFirst(g: Grid, p: Route)
    requires Shape(g) && p != []
  {
    forall q :: IsWalk(g, q) && |q| == |p| && q[0] == p[0] && Last(q) == Last(p) && q != p ==>
      LexLess(Sides(g, p), Sides(g, q))
  }

  lemma {:induction false} TreeKey(g: Grid, s: Search, tree: Tree, height: nat, q: Route)
    requires Complete(g, s, tree, height) && IsWalk(g, q) && q[0] == g.entrance
    requires Last(q) in tree && |tree[Last(q)]| == |q|
    ensures Key(g, tree[Last(q)]) <= Key(g, q)
  {
    var n := |q| - 1;
    var c := q[n];
    if n == 0 {
      assert tree[c] == [c] == q;
    } else {
      var p := q[..n];
      var b := Last(p);
      TreeShortest(g, s, tree, height, p);
      assert Step(g, q[n - 1], q[n]);
      assert Closed(g, tree, b);
      TreeKey(g, s, tree, height, p);
      StepGoes(g, b, c);
      assert q == p + [c];
      KeyOfLonger(g, p, c);
      assert FirstComer(g, tree, c);
    }
  }

  /** Every branch of the search tree comes first. */
  lemma TreeIsFirst(g: Grid, s: Search, tree: Tree, height: nat, c: int)
    requires Complete(g, s, tree, height) && c in tree
    ensures IsFirst(g, tree[c])
  {
    var p := tree[c];
    TreeWalk(g, tree, height, c);
    forall q | IsWalk(g, q) && |q| == |p| && q[0] == p[0] && Last(q) == Last(p) && q != p
      ensures LexLess(Sides(g, p), Sides(g, q))
    {
      TreeKey(g, s, tree, height, q);
      ValueOrder(Sides(g, p), Sides(g, q));
      if Sides(g, p) == Sides(g, q) { SidesDetermine(g, p, q); }
    }
  }

  /** m_vBestRoute is the first of all shortest walks to the exit. */
  lemma BestRouteIsFirst(g: Grid)
    requires Shape(g) && IsCell(g, g.entrance) && Bfs(g).best != []
    ensures Shortest(g, Bfs(g).best, g.exit) && IsFirst(g, Bfs(g).best)
  {
    BestRouteIsShortest(g);
    var tree, height := BfsTree(g);
    TreeIsFirst(g, Bfs(g), tree, height, g.exit);
  }

  /** So is every initial piece of every listed route, among the walks to the cell where it ends. */
  lemma PiecesAreFirst(g: Grid, i: nat, a: nat)
    requires Shape(g) && IsCell(g, g.entrance)
    requires i < |Bfs(g).routes| && a < |Bfs(g).routes[i]|
    ensures IsFirst(g, Bfs(g).routes[i][..a + 1])
  {
    var tree, height := BfsTree(g);
    PieceIsBranch(g, tree, height, Bfs(g).routes, i, a);
    TreeIsFirst(g, Bfs(g), tree, height, Bfs(g).routes[i][a]);
  }

  /** Shorter routes are listed first, and equally long ones in dictionary order. */
  ghost predicate Listed(g: Grid, routes: seq<Route>) {
    forall i, j :: 0 <= i < j < |routes| ==>
      |routes[i]| < |routes[j]|
      || (|routes[i]| == |routes[j]| && LexLess(Sides(g, routes[i]), Sides(g, routes[j])))
  }

  lemma SortedIsListed(g: Grid, routes: seq<Route>)
    requires Sorted(g, routes)
    ensures Listed(g, routes)
  {
    forall i, j | 0 <= i < j < |routes| && |routes[i]| == |routes[j]|
      ensures LexLess(Sides(g, routes[i]), Sides(g, routes[j]))
    {
      assert Earlier(g, routes[i], routes[j]);
      ValueOrder(Sides(g, routes[i]), Sides(g, routes[j]));
    }
  }

  /** m_vRoutes in the end. */
  lemma RoutesAreListed(g: Grid)
    requires Shape(g) && IsCell(g, g.entrance)
    ensures Listed(g, Bfs(g).routes)
  {
    var tree, height := BfsTree(g);
    SortedIsListed(g, Bfs(g).routes);
  }

  /** m_vRoutes and the rest after the first n rounds. */
  function AfterRounds(g: Grid, n: nat): (s: Search)
    requires Shape(g) && IsCell(g, g.entrance)
    ensures Fits(g, s) && AllEndInGrid(g, s.routes)
  {
    if n == 0 then Start(g) else Round(g, AfterRounds(g, n - 1)).1
  }

  lemma {:induction false} RoundsGoOn(g: Grid, n: nat) returns (tree: Tree)
    requires Shape(g) && IsCell(g, g.entrance) && n < Rounds(g, Start(g))
    ensures RoundInv(g, AfterRounds(g, n), tree, n)
    ensures Rounds(g, AfterRounds(g, n)) + n == Rounds(g, Start(g))
  {
    hide RoundInv, Complete, Sweep, LookAround;
    if n == 0 {
      tree := StartTree(g);
    } else {
      var before := RoundsGoOn(g, n - 1);
      tree := RoundTree(g, AfterRounds(g, n - 1), before, n - 1);
    }
  }

  /** In every round: the routes kept and the ones added, which are the longest, are in this order. */
  lemma RoundsAreListed(g: Grid, n: nat)
    requires Shape(g) && IsCell(g, g.entrance) && n <= Rounds(g, Start(g))
    ensures Listed(g, AfterRounds(g, n).routes)
  {
    hide RoundInv, Complete, Round, Listed;
    if n == 0 {
      var tree := StartTree(g);
      RoundIsSorted(g, Start(g), tree, 0);
    } else {
      var before := RoundsGoOn(g, n - 1);
      var tree := RoundTree(g, AfterRounds(g, n - 1), before, n - 1);
      if Round(g, AfterRounds(g, n - 1)).0 {
        RoundIsSorted(g, AfterRounds(g, n), tree, n);
      } else {
        CompleteIsSorted(g, AfterRounds(g, n), tree, n + 1);
      }
    }
    SortedIsListed(g, AfterRounds(g, n).routes);
  }

  lemma RoundIsSorted(g: Grid, s: Search, tree: Tree, k: nat)
    requires RoundInv(g, s, tree, k)
    ensures Sorted(g, s.routes)
  {
    assert [] + s.routes + [] == s.routes;
  }

  lemma CompleteIsSorted(g: Grid, s: Search, tree: Tree, height: nat)
    requires Complete(g, s, tree, height)
    ensures Sorted(g, s.routes)
  {
  }
}
