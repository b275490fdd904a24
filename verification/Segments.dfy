/** m_nWalls: the number of distinct wall segments of a sound maze. */
module Segments {
  import opened Cells
  import opened Counting
  import opened RowMajor
  import opened MazeGrid
  import opened WallState
  import opened Generation

  /** Which cells have a wall at side d. */
  function WallsAt(cells: seq<Walls>, d: Side): (s: seq<bool>)
    ensures |s| == |cells|
  {
    seq(|cells|, c requires 0 <= c < |cells| => cells[c].Has(d))
  }

  lemma OneMoreCell(cells: seq<Walls>, d: Side)
    requires cells != []
    ensures var n := |cells| - 1;
            Tally(WallsAt(cells, d)) == Tally(WallsAt(cells[..n], d)) + Flag(cells[n].Has(d))
  {
    assert WallsAt(cells, d)[..|cells| - 1] == WallsAt(cells[..|cells| - 1], d);
  }

  lemma {:induction false} TotalBySides(cells: seq<Walls>)
    ensures TotalWalls(cells) == Tally(WallsAt(cells, 0)) + Tally(WallsAt(cells, 1))
                                 + Tally(WallsAt(cells, 2)) + Tally(WallsAt(cells, 3))
  {
    if cells == [] {
    } else {
      TotalBySides(cells[..|cells| - 1]);
      OneMoreCell(cells, 0);
      OneMoreCell(cells, 1);
      OneMoreCell(cells, 2);
      OneMoreCell(cells, 3);
    }
  }

  /** The part of a selection that lies in another one, and the rest. */
  function Both(s: seq<bool>, p: seq<bool>): (b: seq<bool>)
    requires |s| == |p|
    ensures |b| == |s|
  {
    seq(|s|, c requires 0 <= c < |s| => s[c] && p[c])
  }

  function Only(s: seq<bool>, p: seq<bool>): (o: seq<bool>)
    requires |s| == |p|
    ensures |o| == |s|
  {
    seq(|s|, c requires 0 <= c < |s| => s[c] && !p[c])
  }

  lemma {:induction false} TallySplits(s: seq<bool>, p: seq<bool>)
    requires |s| == |p|
    ensures Tally(s) == Tally(Both(s, p)) + Tally(Only(s, p))
  {
    if s == [] {
    } else {
      var n := |s| - 1;
      TallySplits(s[..n], p[..n]);
      assert Both(s, p)[..n] == Both(s[..n], p[..n]) && Only(s, p)[..n] == Only(s[..n], p[..n]);
    }
  }

  function LeftEdges(g: Grid): (s: seq<bool>)
    requires Shape(g)
    ensures |s| == |g.cells|
  {
    seq(|g.cells|, c => IsLeftEdge(g, c))
  }

  function RightEdges(g: Grid): (s: seq<bool>)
    requires Shape(g)
    ensures |s| == |g.cells|
  {
    seq(|g.cells|, c => IsRightEdge(g, c))
  }

  /** Every segment once: as the top or the left wall of a cell, or as the right wall of a cell at
      the right edge. */
  function SegmentCount(g: Grid): nat
    requires Shape(g)
  {
    Tally(WallsAt(g.cells, 0)) + Tally(WallsAt(g.cells, 3)) + Tally(Both(WallsAt(g.cells, 1), RightEdges(g)))
  }

  /** Bottom walls are the top walls one row further down. */
  lemma BottomsAreTops(g: Grid)
    requires Sound(g)
    ensures Tally(WallsAt(g.cells, 2)) == Tally(WallsAt(g.cells, 0))
  {
    var top, bottom, w := WallsAt(g.cells, 0), WallsAt(g.cells, 2), g.width;
    OneRow(g);
    forall c | 0 <= c < |bottom| ensures bottom[c] == (top[w..] + top[..w])[c] {
      assert AgreesAt(g, c) && AgreesOn(g, c, 2);
      NeighboursAreCells(g, c);
    }
    assert bottom == top[w..] + top[..w];
    TallySwap(top, w);
  }

  /** Inside, right walls are the left walls of the next cell. */
  lemma InnerRightsAreLefts(g: Grid)
    requires Sound(g)
    ensures Tally(Only(WallsAt(g.cells, 1), RightEdges(g))) == Tally(Only(WallsAt(g.cells, 3), LeftEdges(g)))
  {
    var right, left := Only(WallsAt(g.cells, 1), RightEdges(g)), Only(WallsAt(g.cells, 3), LeftEdges(g));
    OneRow(g);
    var n := |g.cells| - 1;
    EdgeOfLast(g);
    forall c | 0 <= c < n ensures left[c + 1] == right[c] {
      assert AgreesAt(g, c) && AgreesOn(g, c, 1);
      assert IsLeftEdge(g, c + 1) == IsRightEdge(g, c);
    }
    assert left == [false] + right[..n];
    assert right == right[..n] + [false];
    TallyConcat([false], right[..n]);
    TallyConcat(right[..n], [false]);
  }

  lemma EdgeOfLast(g: Grid)
    requires Shape(g)
    ensures |g.cells| > 0 && IsRightEdge(g, |g.cells| - 1) && IsLeftEdge(g, 0)
  {
    OneRow(g);
    AtIsCell(g, g.width - 1, g.height - 1);
    EdgeAt(g, g.width - 1, g.height - 1);
    AtIsCell(g, 0, 0);
    EdgeAt(g, 0, 0);
    assert At(g, g.width - 1, g.height - 1) == |g.cells| - 1;
  }

  /** A selection of one column, given row by row, has one cell for each row. */
  lemma {:induction false} ColumnTally(s: seq<bool>, w: nat, x0: nat, h: nat)
    requires x0 < w && |s| == h * w
    requires forall x, y {:trigger Index(w, x, y)} :: 0 <= x < w && 0 <= y < h && Index(w, x, y) < |s| ==>
               (s[Index(w, x, y)] <==> x == x0)
    ensures Tally(s) == h
  {
    if h == 0 {
    } else {
      var n := (h - 1) * w;
      LastRow(w, h);
      hide Index;
      forall x, y | 0 <= x < w && 0 <= y < h - 1 && Index(w, x, y) < n
        ensures s[..n][Index(w, x, y)] <==> x == x0
      {
        assert s[..n][Index(w, x, y)] == s[Index(w, x, y)];
      }
      ColumnTally(s[..n], w, x0, h - 1);
      forall x | 0 <= x < w ensures s[n..][x] <==> x == x0 {
        assert Index(w, x, h - 1) == n + x;
      }
      OneTallied(s[n..], x0);
      TallyConcat(s[..n], s[n..]);
      assert s == s[..n] + s[n..];
    }
  }

  lemma EdgeTallies(g: Grid)
    requires Shape(g)
    ensures Tally(LeftEdges(g)) == g.height && Tally(RightEdges(g)) == g.height
  {
    forall x, y | 0 <= x < g.width && 0 <= y < g.height
      ensures Index(g.width, x, y) < |g.cells|
      ensures LeftEdges(g)[Index(g.width, x, y)] <==> x == 0
      ensures RightEdges(g)[Index(g.width, x, y)] <==> x == g.width - 1
    {
      AtIsCell(g, x, y);
      EdgeAt(g, x, y);
    }
    ColumnTally(LeftEdges(g), g.width, 0, g.height);
    ColumnTally(RightEdges(g), g.width, g.width - 1, g.height);
  }

  /** All of a selection but one. */
  lemma AllButOne(s: seq<bool>, t: seq<bool>, i: nat)
    requires i < |s| == |t| && s[i] && forall c :: 0 <= c < |s| ==> (t[c] <==> s[c] && c != i)
    ensures Tally(t) == Tally(s) - 1
  {
    TallyUpdate(s, i, false);
    assert t == s[i := false];
  }

  /** Both edges are walled except for one gate each. */
  lemma WalledEdges(g: Grid)
    requires Sound(g)
    ensures Tally(Both(WallsAt(g.cells, 1), RightEdges(g))) == g.height - 1
    ensures Tally(Both(WallsAt(g.cells, 3), LeftEdges(g))) == g.height - 1
  {
    EdgeTallies(g);
    AllButOne(RightEdges(g), Both(WallsAt(g.cells, 1), RightEdges(g)), g.entrance);
    AllButOne(LeftEdges(g), Both(WallsAt(g.cells, 3), LeftEdges(g)), g.exit);
  }

  /** Counting the walls of all cells counts every segment twice, except the ones at the edges. */
  lemma DoubleCount(g: Grid)
    requires Sound(g)
    ensures TotalWalls(g.cells) == 2 * SegmentCount(g) - 2 * (g.height - 1)
  {
    TotalBySides(g.cells);
    BottomsAreTops(g);
    TallySplits(WallsAt(g.cells, 1), RightEdges(g));
    TallySplits(WallsAt(g.cells, 3), LeftEdges(g));
    InnerRightsAreLefts(g);
    WalledEdges(g);
  }

  /** The conserved count is the number of distinct segments. */
  lemma ConservedCountsSegments(g: Grid, nWalls: int)
    requires Sound(g)
    ensures Conserved(g, nWalls) <==> nWalls == SegmentCount(g)
  {
    DoubleCount(g);
  }
}
