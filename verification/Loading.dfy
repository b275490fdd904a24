/** Mazes read from strings (setMZ) and the strings of mazes. */
module MazeLoading {
  import opened Cells
  import opened RowMajor
  import opened MazeGrid
  import opened WallState
  import opened RouteSearch
  import opened RouteSymmetry
  import opened EscapeSearch
  import opened Rotation

  /** The readable string of a coded matrix. */
  function Rendered(g: Grid): seq<cchar> {
    seq(|g.cells|, i requires 0 <= i < |g.cells| => ToHuman(Encode(g.cells[i])))
  }

  /** The maze a string stands for. */
  function Load(w: int, h: int, entrance: int, exit: int, s: seq<cchar>): Grid {
    Grid(w, h, entrance, exit, seq(|s|, i requires 0 <= i < |s| => Decode(ToInternal(s[i]))))
  }

  datatype Outcome = Rejected | Thrown | Accepted

  /** What setMZ makes of its arguments. */
  ghost function Verdict(w: int, h: int, entrance: int, exit: int, s: seq<cchar>): Outcome
    requires |s| == w * h && s != [] ==> w >= 1 && h >= 1
  {
    if s == [] || |s| != w * h || !EdgesAgree(Load(w, h, entrance, exit, s)) then Rejected
    else if Throws(Load(w, h, entrance, exit, s)) then Thrown
    else Accepted
  }

  /** Reading back the string of a maze gives the maze. */
  lemma RenderedLoads(g: Grid)
    ensures Load(g.width, g.height, g.entrance, g.exit, Rendered(g)) == g
  {
    var h := Load(g.width, g.height, g.entrance, g.exit, Rendered(g));
    forall i | 0 <= i < |g.cells| ensures h.cells[i] == g.cells[i] {
      HumanRoundTrip(Encode(g.cells[i]));
    }
    assert h.cells == g.cells;
  }

  lemma SoundNeverThrows(g: Grid)
    requires Sound(g)
    ensures !Throws(g)
  {
    forall c | IsCell(g, c) ensures !Escapes(g, c) {
      SoundNeverEscapes(g, c);
    }
  }

  /** The string of every sound maze, so of every generated one, is accepted. */
  lemma SoundIsAccepted(g: Grid)
    requires Sound(g)
    ensures Verdict(g.width, g.height, g.entrance, g.exit, Rendered(g)) == Accepted
  {
    RenderedLoads(g);
    SoundNeverThrows(g);
    assert IsCell(g, g.entrance);
  }

  // ----- shiftDown followed by setMZ -----

  /** Loading the rotated string with the moved gates gives the shifted maze. */
  lemma RotatedLoads(w: int, h: int, entrance: int, exit: int, s: seq<cchar>, k: int)
    requires w >= 1 && h >= 1 && |s| == w * h && 0 <= k <= h
    ensures 0 <= k * w <= |s|
    ensures Load(w, h, (entrance + k * w) % |s|, (exit + k * w) % |s|, Rotated(s, k * w))
            == Shifted(Load(w, h, entrance, exit, s), k)
  {
    MulLe(k, h, w);
    MulLe(0, k, w);
    var a := Load(w, h, (entrance + k * w) % |s|, (exit + k * w) % |s|, Rotated(s, k * w));
    var b := Shifted(Load(w, h, entrance, exit, s), k);
    forall i | 0 <= i < |s| ensures a.cells[i] == b.cells[i] {
    }
    assert a.cells == b.cells;
  }

  lemma AgreementMoves(g: Grid, k: int)
    requires ByRows(g, k) && EdgesAgree(g)
    ensures EdgesAgree(Shifted(g, k))
  {
    var h := Shifted(g, k);
    forall c | IsCell(h, c) ensures AgreesAt(h, c) {
      var b := Moved(h, h.height - k, c);
      MovedBack(h, h.height - k, c);
      MovedCell(h, h.height - k, c);
      assert Moved(g, k, b) == c;
      ShiftKeepsAgreement(g, k, b);
    }
  }

  lemma EscapeMoves(g: Grid, k: int, c: int)
    requires Gated(g, k) && IsCell(g, c) && Escapes(g, c)
    ensures IsCell(g, Moved(g, k, c)) && Escapes(Shifted(g, k), Moved(g, k, c))
  {
    var h := Shifted(g, k);
    var d: Side :| Opening(g, c, d) && Neighbour(g, c, d) == -1;
    MovedCell(g, k, c);
    MovedNeighbour(g, k, c, d);
    MovedIsInjective(g, k, c, g.entrance);
    MovedIsInjective(g, k, c, g.exit);
    assert Opening(h, Moved(g, k, c), d);
  }

  lemma ThrowMoves(g: Grid, k: int)
    requires Gated(g, k) && Throws(g)
    ensures Throws(Shifted(g, k))
  {
    var h := Shifted(g, k);
    var c :| IsCell(g, c) && Reaches(g, g.entrance, c) && Escapes(g, c);
    EscapeMoves(g, k, c);
    ShiftMovesRoutes(g, k);
    VisitedIsReachable(g);
    VisitedIsReachable(h);
    assert To(Moves(g, k), c) == Moved(g, k, c);
    assert Reaches(h, h.entrance, Moved(g, k, c));
  }

  lemma ShiftKeepsJudgement(g: Grid, k: int)
    requires Gated(g, k)
    ensures EdgesAgree(Shifted(g, k)) <==> EdgesAgree(g)
    ensures Throws(Shifted(g, k)) <==> Throws(g)
  {
    hide EdgesAgree, Throws;
    var r := Shifted(g, k);
    ShiftBack(g, k);
    MovedCell(g, k, g.entrance);
    MovedCell(g, k, g.exit);
    if EdgesAgree(g) { AgreementMoves(g, k); }
    if EdgesAgree(r) { AgreementMoves(r, g.height - k); }
    if Throws(g) { ThrowMoves(g, k); }
    if Throws(r) { ThrowMoves(r, g.height - k); }
  }

  /** setMZ judges a maze and its rotations alike. */
  lemma RotationKeepsVerdict(w: int, h: int, entrance: int, exit: int, s: seq<cchar>, k: int)
    requires w >= 1 && h >= 1 && |s| == w * h && 0 <= k <= h
    requires 0 <= entrance < |s| && 0 <= exit < |s|
    ensures 0 <= k * w <= |s|
    ensures Verdict(w, h, (entrance + k * w) % |s|, (exit + k * w) % |s|, Rotated(s, k * w))
            == Verdict(w, h, entrance, exit, s)
  {
    hide EdgesAgree, Throws, Shifted;
    RotatedLoads(w, h, entrance, exit, s, k);
    ShiftKeepsJudgement(Load(w, h, entrance, exit, s), k);
  }

  /** How many characters shiftDown(k) moves to the front. */
  function Front(w: int, h: int, k: int): int
    requires h >= 1
  {
    (k % h) * w
  }

  lemma FrontAndRest(w: int, h: int, k: int)
    requires w >= 1 && h >= 1 && 0 <= k <= h
    ensures 0 <= Front(w, h, k) && 0 <= Front(w, h, h - k)
    ensures Front(w, h, k) + Front(w, h, h - k) == if k == 0 || k == h then 0 else w * h
  {
    ModOnce(k, h);
    ModOnce(h - k, h);
    MulLe(0, k % h, w);
    MulLe(0, (h - k) % h, w);
    assert 0 < k < h ==> k * w + (h - k) * w == w * h;
  }

  /** shiftDown(height - k) after shiftDown(k) gives the string and the gates back. */
  lemma ShiftDownUndone(w: int, h: int, s: seq<cchar>, gate: int, k: int)
    requires w >= 1 && h >= 1 && |s| == w * h && 0 <= k <= h && 0 <= gate < |s|
    ensures 0 <= Front(w, h, k) <= |s| && 0 <= Front(w, h, h - k) <= |s|
    ensures Rotated(Rotated(s, Front(w, h, k)), Front(w, h, h - k)) == s
    ensures ((gate + Front(w, h, k)) % |s| + Front(w, h, h - k)) % |s| == gate
  {
    FrontAndRest(w, h, k);
    hide Front;
    BackAgain(s, gate, Front(w, h, k), Front(w, h, h - k));
  }

  lemma BackAgain(s: seq<cchar>, gate: int, a: nat, b: nat)
    requires 0 <= gate < |s| && (a + b == |s| || a + b == 0)
    ensures Rotated(Rotated(s, a), b) == s && ((gate + a) % |s| + b) % |s| == gate
  {
    if a + b == 0 {
      assert Rotated(s, 0) == s;
      ModOnce(gate, |s|);
    } else {
      RotatedBack(s, a);
      ThereAndBack(gate, a, |s|);
    }
  }

  /** What setMZ gets to see after shiftDown(offset). */
  lemma FrontShifts(w: int, h: int, entrance: int, exit: int, s: seq<cchar>, offset: int)
    requires w >= 1 && h >= 1 && |s| == w * h && 0 <= entrance < |s| && 0 <= exit < |s|
    ensures var k, n := offset % h, Front(w, h, offset);
            var g := Load(w, h, entrance, exit, s);
            && 0 <= k <= h && 0 <= n <= |s|
            && Load(w, h, (entrance + n) % |s|, (exit + n) % |s|, Rotated(s, n)) == Shifted(g, k)
            && (EdgesAgree(Shifted(g, k)) <==> EdgesAgree(g))
            && Verdict(w, h, (entrance + n) % |s|, (exit + n) % |s|, Rotated(s, n)) == Verdict(w, h, entrance, exit, s)
  {
    hide EdgesAgree, Throws, Shifted, Verdict, Load;
    var k := offset % h;
    RotatedLoads(w, h, entrance, exit, s, k);
    RotationKeepsVerdict(w, h, entrance, exit, s, k);
    LoadIsGated(w, h, entrance, exit, s, k);
    ShiftKeepsJudgement(Load(w, h, entrance, exit, s), k);
  }

  lemma LoadIsGated(w: int, h: int, entrance: int, exit: int, s: seq<cchar>, k: int)
    requires w >= 1 && h >= 1 && |s| == w * h && 0 <= entrance < |s| && 0 <= exit < |s| && 0 <= k <= h
    ensures Gated(Load(w, h, entrance, exit, s), k)
  {
  }
}
