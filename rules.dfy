/** The rules of the game on board values: the flip total of a move, the board
    after a move, the row-major list of legal moves, the turn-advance rule,
    termination and the winner. The engine class is proved against these. */
module Rules {
  import opened MoveScores
  import opened Board

  // ---------------------------------------------------------------------
  // The eight directions, in the order the engine's nested loops visit them
  // (row increment -1, 0, 1 outer; column increment -1, 0, 1 inner). The
  // direction (dr, dc) has index 3 * dr + dc + 4; the null direction (0, 0),
  // which the loops also visit, has index 4.
  // ---------------------------------------------------------------------

  function DirRow(k: int): int
  {
    if k < 3 then -1 else if k < 6 then 0 else 1
  }

  function DirCol(k: int): int
  {
    k - 3 * DirRow(k) - 4
  }

  lemma DirIndexRoundTrip(k: int)
    requires 0 <= k < 9
    ensures IsDirection(DirRow(k)) && IsDirection(DirCol(k))
    ensures 3 * DirRow(k) + DirCol(k) + 4 == k
  {
  }

  lemma DirOfIndex(dr: int, dc: int)
    requires IsDirection(dr) && IsDirection(dc)
    ensures 0 <= (3 * dr + dc + 4) < 9
    ensures DirRow(3 * dr + dc + 4) == dr && DirCol(3 * dr + dc + 4) == dc
  {
  }

  /** Sum of the flip counts of the first `k` directions. */
  function SumFlips(g: Grid, p: int, r: int, c: int, k: int): nat
    requires WellFormed(g) && IsOnBoard(r, c) && g[r][c] != Opponent(p) && 0 <= k <= 9
  {
    if k == 0 then 0
    else SumFlips(g, p, r, c, k - 1) + FlipsInDirection(g, p, r, c, DirRow(k - 1), DirCol(k - 1))
  }

  /** The direction loops' step: visiting direction (dr, dc) adds its flips. */
  lemma SumFlipsStep(g: Grid, p: int, r: int, c: int, dr: int, dc: int)
    requires WellFormed(g) && IsOnBoard(r, c) && g[r][c] != Opponent(p)
    requires IsDirection(dr) && IsDirection(dc)
    ensures SumFlips(g, p, r, c, 3 * dr + dc + 5) ==
      SumFlips(g, p, r, c, 3 * dr + dc + 4) + FlipsInDirection(g, p, r, c, dr, dc)
  {
    DirOfIndex(dr, dc);
  }

  /** The flip total of `calcMoveFlips`: zero on an occupied cell, otherwise
      the sum over all eight directions. A move is legal iff this is positive. */
  function MoveFlips(g: Grid, p: int, r: int, c: int): nat
    requires WellFormed(g) && IsOnBoard(r, c)
  {
    if g[r][c] != Empty then 0 else SumFlips(g, p, r, c, 9)
  }

  // ---------------------------------------------------------------------
  // The board after a move
  // ---------------------------------------------------------------------

  /** Cell (x, y) becomes `p`'s when `p` plays at (r, c), counting only the
      directions before the `k`-th: it is the target and one of those
      directions flips something, or it lies on one of those rays within that
      ray's flip count. */
  predicate Flipped(g: Grid, p: int, r: int, c: int, x: int, y: int, k: int)
    requires WellFormed(g) && IsOnBoard(r, c) && g[r][c] != Opponent(p) && 0 <= k <= 9
  {
    if x == r && y == c then SumFlips(g, p, r, c, k) > 0
    else
      && Aligned(r, c, x, y)
      && 3 * Sign(x - r) + Sign(y - c) + 4 < k
      && Distance(r, c, x, y) <= FlipsInDirection(g, p, r, c, Sign(x - r), Sign(y - c))
  }

  function PlacedCell(g: Grid, p: int, r: int, c: int, x: int, y: int): int
    requires WellFormed(g) && IsOnBoard(r, c) && g[r][c] != Opponent(p) && IsOnBoard(x, y)
  {
    if Flipped(g, p, r, c, x, y, 9) then p else g[x][y]
  }

  /** The board after `p` plays at (r, c), every ray computed on `g`. */
  function Placed(g: Grid, p: int, r: int, c: int): (g': Grid)
    requires WellFormed(g) && IsOnBoard(r, c) && g[r][c] != Opponent(p)
    ensures WellFormed(g')
    ensures forall x, y :: IsOnBoard(x, y) ==> g'[x][y] == PlacedCell(g, p, r, c, x, y)
  {
    seq(Size, x requires 0 <= x < Size =>
      seq(Size, y requires 0 <= y < Size => PlacedCell(g, p, r, c, x, y)))
  }

  /** Adding the `k`-th direction to `Flipped` adds that ray's flipped run,
      and the target if the ray flips anything. */
  lemma FlippedStep(g: Grid, p: int, r: int, c: int, x: int, y: int, k: int)
    requires WellFormed(g) && IsOnBoard(r, c) && g[r][c] != Opponent(p) && 0 <= k < 9
    ensures Flipped(g, p, r, c, x, y, k + 1) <==>
      || Flipped(g, p, r, c, x, y, k)
      || (x == r && y == c && FlipsInDirection(g, p, r, c, DirRow(k), DirCol(k)) > 0)
      || OnRay(r, c, DirRow(k), DirCol(k), x, y, FlipsInDirection(g, p, r, c, DirRow(k), DirCol(k)))
  {
    var dr, dc := DirRow(k), DirCol(k);
    var n := FlipsInDirection(g, p, r, c, dr, dc);
    if x == r && y == c {
      assert !Aligned(r, c, x, y);
    } else if Aligned(r, c, x, y) {
      var sx, sy := Sign(x - r), Sign(y - c);
      if 3 * sx + sy + 4 == k {
        DirOfIndex(sx, sy);
      } else if sx == dr && sy == dc {
        DirIndexRoundTrip(k);
      }
    }
  }

  /** Every flipped cell other than the target held an opponent disk. */
  lemma FlippedWasOpponent(g: Grid, p: int, r: int, c: int, x: int, y: int, k: int)
    requires WellFormed(g) && IsOnBoard(r, c) && g[r][c] != Opponent(p) && 0 <= k <= 9
    requires Flipped(g, p, r, c, x, y, k) && (x != r || y != c)
    ensures IsOnBoard(x, y) && g[x][y] == Opponent(p)
  {
    AlignedIsAlong(r, c, x, y);
    var dr, dc, n := Sign(x - r), Sign(y - c), Distance(r, c, x, y);
    FlipsSound(g, p, r, c, dr, dc);
    assert Holds(g, Along(r, dr, n), Along(c, dc, n), Opponent(p));
  }

  /** One cell of a move: a flipped cell becomes `p`'s and was the empty
      target or an opponent disk; any other cell keeps its value. */
  lemma PlacedCellChange(g: Grid, p: int, r: int, c: int, x: int, y: int)
    requires WellFormed(g) && IsPlayer(p) && IsOnBoard(r, c) && g[r][c] == Empty && IsOnBoard(x, y)
    ensures PlacedCell(g, p, r, c, x, y) != g[x][y] <==> Flipped(g, p, r, c, x, y, 9)
    ensures Flipped(g, p, r, c, x, y, 9) ==>
      PlacedCell(g, p, r, c, x, y) == p
      && (if x == r && y == c then g[x][y] == Empty else g[x][y] == Opponent(p))
  {
    if Flipped(g, p, r, c, x, y, 9) && (x != r || y != c) {
      FlippedWasOpponent(g, p, r, c, x, y, 9);
    }
  }

  /** A move changes exactly the flipped cells: no other cell changes. */
  lemma PlacedChangesExactlyFlipped(g: Grid, p: int, r: int, c: int)
    requires WellFormed(g) && IsPlayer(p) && IsOnBoard(r, c) && g[r][c] == Empty
    ensures var g' := Placed(g, p, r, c);
      forall x, y :: IsOnBoard(x, y) ==> (g'[x][y] != g[x][y] <==> Flipped(g, p, r, c, x, y, 9))
  {
    var g' := Placed(g, p, r, c);
    forall x, y | IsOnBoard(x, y)
      ensures g'[x][y] != g[x][y] <==> Flipped(g, p, r, c, x, y, 9)
    {
      PlacedCellChange(g, p, r, c, x, y);
    }
  }

  /** Apart from the target, which was empty, the flipped cells are the
      sandwiched runs, which held the opponent. */
  lemma PlacedFlipsOpponentRuns(g: Grid, p: int, r: int, c: int)
    requires WellFormed(g) && IsOnBoard(r, c) && g[r][c] == Empty
    ensures forall x, y :: (x != r || y != c) && Flipped(g, p, r, c, x, y, 9) ==>
      IsOnBoard(x, y) && g[x][y] == Opponent(p)
  {
    forall x, y | (x != r || y != c) && Flipped(g, p, r, c, x, y, 9)
      ensures IsOnBoard(x, y) && g[x][y] == Opponent(p)
    {
      FlippedWasOpponent(g, p, r, c, x, y, 9);
    }
  }

  /** `h` is `g0` after the first `k` directions of `p`'s move at (r, c) have
      been played on it one after another. */
  ghost predicate Applied(h: Grid, g0: Grid, p: int, r: int, c: int, k: int)
    requires WellFormed(h) && WellFormed(g0) && IsOnBoard(r, c) && g0[r][c] != Opponent(p) && 0 <= k <= 9
  {
    forall x, y :: IsOnBoard(x, y) ==>
      h[x][y] == (if Flipped(g0, p, r, c, x, y, k) then p else g0[x][y])
  }

  /** One iteration of the direction loop of `placeDisk`: painting the `k`-th
      ray of `g` (which has the first `k` directions applied) and then, if the
      ray flipped anything, writing the mover's disk on the target, applies the
      first `k + 1` directions. */
  lemma AppliedStep(g0: Grid, g: Grid, g1: Grid, g2: Grid, p: int, r: int, c: int, k: int)
    requires WellFormed(g0) && WellFormed(g) && WellFormed(g1) && WellFormed(g2) && IsPlayer(p)
    requires IsOnBoard(r, c) && g0[r][c] == Empty && 0 <= k < 9
    requires Applied(g, g0, p, r, c, k)
    requires RayPainted(g1, g, p, r, c, DirRow(k), DirCol(k), FlipsInDirection(g0, p, r, c, DirRow(k), DirCol(k)))
    requires g2 == if FlipsInDirection(g0, p, r, c, DirRow(k), DirCol(k)) > 0 then g1[r := g1[r][c := p]] else g1
    ensures Applied(g2, g0, p, r, c, k + 1)
  {
    var n := FlipsInDirection(g0, p, r, c, DirRow(k), DirCol(k));
    forall x, y | IsOnBoard(x, y)
      ensures g2[x][y] == (if Flipped(g0, p, r, c, x, y, k + 1) then p else g0[x][y])
    {
      assert g[x][y] == (if Flipped(g0, p, r, c, x, y, k) then p else g0[x][y]);
      assert g1[x][y] == if OnRay(r, c, DirRow(k), DirCol(k), x, y, n) then p else g[x][y];
      AppliedCell(g0, g, g1, g2, p, r, c, k, x, y);
    }
  }

  /** The counts of the same step: the target becomes the mover's on the
      first direction that flips, and the opponent's count does not change. */
  lemma AppliedStepCounts(g0: Grid, g: Grid, g1: Grid, g2: Grid, p: int, r: int, c: int, k: int)
    requires WellFormed(g0) && WellFormed(g) && WellFormed(g1) && WellFormed(g2) && IsPlayer(p)
    requires IsOnBoard(r, c) && g0[r][c] == Empty && 0 <= k < 9
    requires Applied(g, g0, p, r, c, k)
    requires RayPainted(g1, g, p, r, c, DirRow(k), DirCol(k), FlipsInDirection(g0, p, r, c, DirRow(k), DirCol(k)))
    requires g2 == if FlipsInDirection(g0, p, r, c, DirRow(k), DirCol(k)) > 0 then g1[r := g1[r][c := p]] else g1
    ensures Count(g2, p) == Count(g1, p)
      + (if FlipsInDirection(g0, p, r, c, DirRow(k), DirCol(k)) > 0 && SumFlips(g0, p, r, c, k) == 0 then 1 else 0)
    ensures Count(g2, Opponent(p)) == Count(g1, Opponent(p))
  {
    assert g1[r][c] == g[r][c];
    assert g[r][c] == (if Flipped(g0, p, r, c, r, c, k) then p else g0[r][c]);
    CountWrite(g1, g2, r, c, p);
    CountWrite(g1, g2, r, c, Opponent(p));
  }

  /** `AppliedStep` for one cell. */
  lemma AppliedCell(g0: Grid, g: Grid, g1: Grid, g2: Grid, p: int, r: int, c: int, k: int, x: int, y: int)
    requires WellFormed(g0) && WellFormed(g) && WellFormed(g1) && WellFormed(g2) && IsPlayer(p)
    requires IsOnBoard(r, c) && g0[r][c] == Empty && 0 <= k < 9 && IsOnBoard(x, y)
    requires g[x][y] == (if Flipped(g0, p, r, c, x, y, k) then p else g0[x][y])
    requires g1[x][y] ==
      if OnRay(r, c, DirRow(k), DirCol(k), x, y, FlipsInDirection(g0, p, r, c, DirRow(k), DirCol(k))) then p else g[x][y]
    requires (x != r || y != c) ==> g2[x][y] == g1[x][y]
    requires x == r && y == c ==>
      g2[x][y] == if FlipsInDirection(g0, p, r, c, DirRow(k), DirCol(k)) > 0 then p else g1[x][y]
    ensures g2[x][y] == (if Flipped(g0, p, r, c, x, y, k + 1) then p else g0[x][y])
  {
    FlippedStep(g0, p, r, c, x, y, k);
  }

  /** A cell of the `k`-th ray is not flipped by the directions before it. */
  lemma NotYetFlipped(g: Grid, p: int, r: int, c: int, k: int, j: int)
    requires WellFormed(g) && IsOnBoard(r, c) && g[r][c] != Opponent(p) && 0 <= k < 9 && j >= 1
    requires (DirRow(k), DirCol(k)) != (0, 0)
    ensures !Flipped(g, p, r, c, Along(r, DirRow(k), j), Along(c, DirCol(k), j), k)
  {
    var x, y := Along(r, DirRow(k), j), Along(c, DirCol(k), j);
    DirIndexRoundTrip(k);
    AlongIsOnRay(r, c, DirRow(k), DirCol(k), j);
    assert x != r || y != c;
    assert 3 * Sign(x - r) + Sign(y - c) + 4 == k;
  }

  /** While the directions before the `k`-th have been applied to a board
      one after another, the `k`-th ray still has the flip count it had on the
      original board: distinct rays from one cell share no cell. */
  lemma RayUntouched(g0: Grid, g: Grid, p: int, r: int, c: int, k: int)
    requires WellFormed(g0) && WellFormed(g) && IsPlayer(p) && IsOnBoard(r, c) && g0[r][c] == Empty
    requires 0 <= k < 9
    requires Applied(g, g0, p, r, c, k)
    ensures IsDirection(DirRow(k)) && IsDirection(DirCol(k))
    ensures g[r][c] != Opponent(p)
    ensures FlipsInDirection(g, p, r, c, DirRow(k), DirCol(k)) == FlipsInDirection(g0, p, r, c, DirRow(k), DirCol(k))
  {
    DirIndexRoundTrip(k);
    assert g[r][c] == (if Flipped(g0, p, r, c, r, c, k) then p else g0[r][c]);
    if (DirRow(k), DirCol(k)) == (0, 0) {
      NoFlipsInPlace(g, p, r, c);
      NoFlipsInPlace(g0, p, r, c);
    } else {
      RayCellsUntouched(g0, g, p, r, c, k);
      FlipsFrame(g, g0, p, r, c, DirRow(k), DirCol(k));
    }
  }

  lemma RayCellsUntouched(g0: Grid, g: Grid, p: int, r: int, c: int, k: int)
    requires WellFormed(g0) && WellFormed(g) && IsOnBoard(r, c) && g0[r][c] != Opponent(p)
    requires 0 <= k < 9 && (DirRow(k), DirCol(k)) != (0, 0)
    requires Applied(g, g0, p, r, c, k)
    ensures forall j :: j >= 1 && IsOnBoard(Along(r, DirRow(k), j), Along(c, DirCol(k), j)) ==>
      g[Along(r, DirRow(k), j)][Along(c, DirCol(k), j)] == g0[Along(r, DirRow(k), j)][Along(c, DirCol(k), j)]
  {
    forall j | j >= 1 && IsOnBoard(Along(r, DirRow(k), j), Along(c, DirCol(k), j))
      ensures g[Along(r, DirRow(k), j)][Along(c, DirCol(k), j)] == g0[Along(r, DirRow(k), j)][Along(c, DirCol(k), j)]
    {
      var x, y := Along(r, DirRow(k), j), Along(c, DirCol(k), j);
      NotYetFlipped(g0, p, r, c, k, j);
      assert g[x][y] == (if Flipped(g0, p, r, c, x, y, k) then p else g0[x][y]);
    }
  }

  /** A zero flip total over the first `k` directions means every one of
      them flips nothing. */
  lemma {:induction false} SumFlipsZero(g: Grid, p: int, r: int, c: int, k: int)
    requires WellFormed(g) && IsOnBoard(r, c) && g[r][c] != Opponent(p) && 0 <= k <= 9
    requires SumFlips(g, p, r, c, k) == 0
    ensures forall x, y :: !Flipped(g, p, r, c, x, y, k)
  {
    if k > 0 {
      SumFlipsZero(g, p, r, c, k - 1);
      forall x, y ensures !Flipped(g, p, r, c, x, y, k) {
        FlippedStep(g, p, r, c, x, y, k - 1);
      }
    }
  }

  // ---------------------------------------------------------------------
  // Legal moves in row-major order
  // ---------------------------------------------------------------------

  /** The number of cells before (row, col) in row-major order. The row
      length is written as the literal 8 (= Size) so that the arithmetic
      stays linear. */
  function CellIndex(row: int, col: int): int
  {
    row * 8 + col
  }

  /** Cell (r1, c1) comes before cell (r2, c2) in row-major order. */
  predicate Before(r1: int, c1: int, r2: int, c2: int)
  {
    r1 < r2 || (r1 == r2 && c1 < c2)
  }

  /** The flip total of every cell, as a grid. */
  function FlipTable(g: Grid, p: int): (t: Grid)
    requires WellFormed(g)
    ensures WellFormed(t)
  {
    seq(Size, x requires 0 <= x < Size => seq(Size, y requires 0 <= y < Size => MoveFlips(g, p, x, y)))
  }

  /** The table entry of a cell is that cell's flip total. */
  lemma FlipTableAt(g: Grid, p: int, row: int, col: int)
    requires WellFormed(g) && IsOnBoard(row, col)
    ensures FlipTable(g, p)[row][col] == MoveFlips(g, p, row, col)
  {
  }

  /** The move list entry of cell (row, col) given the table `t` of flip
      totals: present iff the total is positive. */
  function Entry(t: Grid, row: int, col: int): seq<MoveScore>
    requires WellFormed(t) && IsOnBoard(row, col)
  {
    if t[row][col] > 0 then [MoveScore(row, col, t[row][col])] else []
  }

  /** The entries of the cells before (row, col) in row-major order. */
  function MovesBefore(t: Grid, row: int, col: int): seq<MoveScore>
    requires WellFormed(t) && 0 <= row < Size && 0 <= col <= Size
    decreases row, col
  {
    if col > 0 then MovesBefore(t, row, col - 1) + Entry(t, row, col - 1)
    else if row > 0 then MovesBefore(t, row - 1, Size)
    else []
  }

  /** What `getPossibleMoves(p)` returns: the entries of all cells. */
  function PossibleMoves(g: Grid, p: int): seq<MoveScore>
    requires WellFormed(g)
  {
    MovesBefore(FlipTable(g, p), Size - 1, Size)
  }

  /** There is at most one entry per cell. */
  lemma {:induction false} MovesBeforeLength(t: Grid, row: int, col: int)
    requires WellFormed(t) && 0 <= row < Size && 0 <= col <= Size
    ensures |MovesBefore(t, row, col)| <= CellIndex(row, col)
    decreases row, col
  {
    if col > 0 {
      MovesBeforeLength(t, row, col - 1);
    } else if row > 0 {
      MovesBeforeLength(t, row - 1, Size);
    }
  }

  /** An entry is listed iff it names an on-board cell before (row, col) and
      carries that cell's positive table value. */
  lemma {:induction false} MovesBeforeMembers(t: Grid, row: int, col: int)
    requires WellFormed(t) && 0 <= row < Size && 0 <= col <= Size
    ensures forall m :: m in MovesBefore(t, row, col) <==>
      IsOnBoard(m.row, m.col) && Before(m.row, m.col, row, col)
      && m.score == t[m.row][m.col] && m.score > 0
    decreases row, col
  {
    if col > 0 {
      MovesBeforeMembers(t, row, col - 1);
    } else if row > 0 {
      MovesBeforeMembers(t, row - 1, Size);
    }
  }

  /** Every entry of `s` names a cell before (row, col). */
  ghost predicate AllBefore(s: seq<MoveScore>, row: int, col: int)
  {
    forall i :: 0 <= i < |s| ==> Before(s[i].row, s[i].col, row, col)
  }

  /** The entries of `s` are strictly increasing in row-major order. */
  ghost predicate RowMajorSorted(s: seq<MoveScore>)
  {
    forall i, j :: 0 <= i < j < |s| ==> Before(s[i].row, s[i].col, s[j].row, s[j].col)
  }

  /** The list is strictly increasing in row-major order. */
  lemma {:induction false} MovesBeforeOrdered(t: Grid, row: int, col: int)
    requires WellFormed(t) && 0 <= row < Size && 0 <= col <= Size
    ensures AllBefore(MovesBefore(t, row, col), row, col)
    ensures RowMajorSorted(MovesBefore(t, row, col))
    decreases row, col
  {
    if col > 0 {
      MovesBeforeOrdered(t, row, col - 1);
      var prev := MovesBefore(t, row, col - 1);
      var s := prev + Entry(t, row, col - 1);
      assert MovesBefore(t, row, col) == s;
      if t[row][col - 1] > 0 {
        assert s[|prev|] == MoveScore(row, col - 1, t[row][col - 1]);
        forall i | 0 <= i < |s|
          ensures Before(s[i].row, s[i].col, row, col)
        {
          if i < |prev| {
            assert s[i] == prev[i];
          }
        }
        forall i, j | 0 <= i < j < |s|
          ensures Before(s[i].row, s[i].col, s[j].row, s[j].col)
        {
          assert s[i] == prev[i];
          if j < |prev| {
            assert s[j] == prev[j];
          }
        }
      } else {
        assert s == prev;
      }
    } else if row > 0 {
      MovesBeforeOrdered(t, row - 1, Size);
    }
  }

  /** The properties of `getPossibleMoves`: at most one entry per cell; a move
      is listed iff it is on the board and its score is its positive flip
      total; the list is in row-major order. */
  lemma PossibleMovesSpec(g: Grid, p: int)
    requires WellFormed(g)
    ensures |PossibleMoves(g, p)| <= CellCount
    ensures forall m :: m in PossibleMoves(g, p) <==>
      IsOnBoard(m.row, m.col) && m.score == MoveFlips(g, p, m.row, m.col) && m.score > 0
    ensures RowMajorSorted(PossibleMoves(g, p))
  {
    var t := FlipTable(g, p);
    MovesBeforeLength(t, Size - 1, Size);
    MovesBeforeMembers(t, Size - 1, Size);
    MovesBeforeOrdered(t, Size - 1, Size);
    forall m: MoveScore | IsOnBoard(m.row, m.col)
      ensures Before(m.row, m.col, Size - 1, Size) && t[m.row][m.col] == MoveFlips(g, p, m.row, m.col)
    {
      FlipTableAt(g, p, m.row, m.col);
    }
  }

  /** A player has a move iff some cell has a positive flip total. */
  lemma HasMoveIff(g: Grid, p: int, r: int, c: int)
    requires WellFormed(g) && IsOnBoard(r, c) && MoveFlips(g, p, r, c) > 0
    ensures MoveScore(r, c, MoveFlips(g, p, r, c)) in PossibleMoves(g, p)
    ensures PossibleMoves(g, p) != []
  {
    PossibleMovesSpec(g, p);
  }

  // ---------------------------------------------------------------------
  // Termination, disk counts and the winner
  // ---------------------------------------------------------------------

  predicate GameOver(g: Grid)
    requires WellFormed(g)
  {
    PossibleMoves(g, PlayerOne) == [] && PossibleMoves(g, PlayerTwo) == []
  }

  /** Number of cells holding `v` among the first `n` cells of one row. */
  function RowCount(row: seq<int>, v: int, n: int): nat
    requires 0 <= n <= |row|
  {
    if n == 0 then 0 else RowCount(row, v, n - 1) + (if row[n - 1] == v then 1 else 0)
  }

  /** Number of cells holding `v` in the first `i` rows. */
  function RowsCount(g: Grid, v: int, i: int): nat
    requires WellFormed(g) && 0 <= i <= Size
  {
    if i == 0 then 0 else RowsCount(g, v, i - 1) + RowCount(g[i - 1], v, Size)
  }

  /** The number of cells holding `v`. */
  function Count(g: Grid, v: int): nat
    requires WellFormed(g)
  {
    RowsCount(g, v, Size)
  }

  /** A row's first `n` cells hold at most `n` disks. */
  lemma {:induction false} RowDisksAtMost(row: seq<int>, n: int)
    requires 0 <= n <= |row|
    ensures RowCount(row, PlayerOne, n) + RowCount(row, PlayerTwo, n) <= n
  {
    if n > 0 {
      RowDisksAtMost(row, n - 1);
    }
  }

  /** The first `i` rows hold at most `i * Size` disks. */
  lemma {:induction false} RowsDisksAtMost(g: Grid, i: int)
    requires WellFormed(g) && 0 <= i <= Size
    ensures RowsCount(g, PlayerOne, i) + RowsCount(g, PlayerTwo, i) <= i * Size
  {
    if i > 0 {
      RowsDisksAtMost(g, i - 1);
      RowDisksAtMost(g[i - 1], Size);
    }
  }

  /** The board holds at most one disk per cell. */
  lemma DisksAtMostCells(g: Grid)
    requires WellFormed(g)
    ensures Count(g, PlayerOne) + Count(g, PlayerTwo) <= CellCount
  {
    RowsDisksAtMost(g, Size);
  }

  /** `h` is `g0` part way through `p`'s move at (r, c): the first `k`
      directions are applied, `placed` tells whether any of them flipped a run
      (and so whether the mover's disk is down), and both disk counts have
      moved by the disks flipped so far. */
  ghost predicate PartlyPlayed(h: Grid, g0: Grid, p: int, r: int, c: int, k: int, placed: bool)
    requires WellFormed(h) && WellFormed(g0) && IsPlayer(p) && IsOnBoard(r, c) && g0[r][c] == Empty && 0 <= k <= 9
  {
    && Applied(h, g0, p, r, c, k)
    && (placed <==> SumFlips(g0, p, r, c, k) > 0)
    && Count(h, p) == Count(g0, p) + SumFlips(g0, p, r, c, k) + (if placed then 1 else 0)
    && Count(h, Opponent(p)) == Count(g0, Opponent(p)) - SumFlips(g0, p, r, c, k)
  }

  /** Rows that agree on their first `n` cells count alike there. */
  lemma {:induction false} RowCountFrame(r1: seq<int>, r2: seq<int>, v: int, n: int)
    requires 0 <= n <= |r1| && n <= |r2|
    requires forall j :: 0 <= j < n ==> r1[j] == r2[j]
    ensures RowCount(r1, v, n) == RowCount(r2, v, n)
  {
    if n > 0 {
      RowCountFrame(r1, r2, v, n - 1);
    }
  }

  /** Changing cell `y` of a row changes its count by that cell's contribution. */
  lemma {:induction false} RowCountWrite(r1: seq<int>, r2: seq<int>, y: int, v: int, n: int)
    requires 0 <= n <= |r1| && |r1| == |r2| && 0 <= y < |r1|
    requires forall j :: 0 <= j < |r1| && j != y ==> r1[j] == r2[j]
    ensures RowCount(r2, v, n) ==
      RowCount(r1, v, n) + (if y < n && r2[y] == v then 1 else 0) - (if y < n && r1[y] == v then 1 else 0)
  {
    if n > 0 {
      RowCountWrite(r1, r2, y, v, n - 1);
    }
  }

  /** Changing one cell changes the count of the first `i` rows by that
      cell's contribution, if it lies in them. */
  lemma {:induction false} RowsCountWrite(g1: Grid, g2: Grid, x: int, y: int, v: int, i: int)
    requires WellFormed(g1) && WellFormed(g2) && IsOnBoard(x, y) && 0 <= i <= Size
    requires forall a, b :: IsOnBoard(a, b) && (a != x || b != y) ==> g1[a][b] == g2[a][b]
    ensures RowsCount(g2, v, i) ==
      RowsCount(g1, v, i) + (if x < i && g2[x][y] == v then 1 else 0) - (if x < i && g1[x][y] == v then 1 else 0)
  {
    if i > 0 {
      RowsCountWrite(g1, g2, x, y, v, i - 1);
      if i - 1 == x {
        forall j | 0 <= j < Size && j != y
          ensures g1[x][j] == g2[x][j]
        {
          assert IsOnBoard(x, j);
        }
        RowCountWrite(g1[x], g2[x], y, v, Size);
      } else {
        var row := i - 1;
        forall j | 0 <= j < Size
          ensures g1[row][j] == g2[row][j]
        {
          assert IsOnBoard(row, j);
        }
        RowCountFrame(g1[row], g2[row], v, Size);
      }
    }
  }

  /** Changing one cell changes each count by that cell's contribution. */
  lemma CountWrite(g1: Grid, g2: Grid, x: int, y: int, v: int)
    requires WellFormed(g1) && WellFormed(g2) && IsOnBoard(x, y)
    requires forall i, j :: IsOnBoard(i, j) && (i != x || j != y) ==> g1[i][j] == g2[i][j]
    ensures Count(g2, v) ==
      Count(g1, v) + (if g2[x][y] == v then 1 else 0) - (if g1[x][y] == v then 1 else 0)
  {
    RowsCountWrite(g1, g2, x, y, v, Size);
  }

  /** `h` is `g` with steps 1..i of one ray painted `p`. */
  ghost predicate RayPainted(h: Grid, g: Grid, p: int, r: int, c: int, dr: int, dc: int, i: int)
    requires WellFormed(h) && WellFormed(g)
  {
    forall x, y :: IsOnBoard(x, y) ==>
      h[x][y] == if OnRay(r, c, dr, dc, x, y, i) then p else g[x][y]
  }

  /** Painting step i + 1 of a ray over an opponent disk extends the painted
      run by one and moves one disk from the opponent's count to the mover's. */
  lemma PaintStep(g: Grid, before: Grid, after: Grid, p: int, r: int, c: int, dr: int, dc: int, i: nat)
    requires WellFormed(g) && WellFormed(before) && WellFormed(after) && IsPlayer(p)
    requires IsDirection(dr) && IsDirection(dc) && (dr, dc) != (0, 0)
    requires RayPainted(before, g, p, r, c, dr, dc, i)
    requires Holds(g, Along(r, dr, i + 1), Along(c, dc, i + 1), Opponent(p))
    requires after[Along(r, dr, i + 1)][Along(c, dc, i + 1)] == p
    requires forall x, y :: IsOnBoard(x, y) && (x != Along(r, dr, i + 1) || y != Along(c, dc, i + 1)) ==>
      after[x][y] == before[x][y]
    ensures RayPainted(after, g, p, r, c, dr, dc, i + 1)
    ensures Count(after, p) == Count(before, p) + 1
    ensures Count(after, Opponent(p)) == Count(before, Opponent(p)) - 1
  {
    var x0, y0 := Along(r, dr, i + 1), Along(c, dc, i + 1);
    AlongIsOnRay(r, c, dr, dc, i + 1);
    assert before[x0][y0] == Opponent(p);
    forall x, y | IsOnBoard(x, y)
      ensures after[x][y] == if OnRay(r, c, dr, dc, x, y, i + 1) then p else g[x][y]
    {
      OnRayStep(r, c, dr, dc, x, y, i);
    }
    CountWrite(before, after, x0, y0, p);
    CountWrite(before, after, x0, y0, Opponent(p));
  }

  /** `getWinner`: -1 while the game is on, otherwise the player with more
      disks, or 0 on a tie. */
  function Winner(g: Grid): int
    requires WellFormed(g)
  {
    if !GameOver(g) then -1
    else if Count(g, PlayerOne) > Count(g, PlayerTwo) then PlayerOne
    else if Count(g, PlayerTwo) > Count(g, PlayerOne) then PlayerTwo
    else 0
  }

  // ---------------------------------------------------------------------
  // Game states and successful moves
  // ---------------------------------------------------------------------

  datatype State = State(grid: Grid, player: int)

  predicate ValidState(s: State)
  {
    WellFormed(s.grid) && CellsInRange(s.grid) && IsPlayer(s.player)
  }

  /** The moves of the player to move; each is on the board. */
  function CurrentMoves(s: State): (r: seq<MoveScore>)
    requires WellFormed(s.grid)
    ensures forall m :: m in r ==> IsOnBoard(m.row, m.col)
  {
    PossibleMovesSpec(s.grid, s.player);
    PossibleMoves(s.grid, s.player)
  }

  /** `switchToNextPlayablePlayer`: the opponent, unless the opponent has no
      legal move, in which case the opponent's opponent. */
  function NextPlayer(g: Grid, p: int): int
    requires WellFormed(g)
  {
    var q := Opponent(p);
    if PossibleMoves(g, q) == [] then Opponent(q) else q
  }

  /** `placeDisk` on a state: `None` for an occupied cell or a move that flips
      nothing (the state is then unchanged), otherwise the new board and the
      player to move next. */
  function Place(s: State, r: int, c: int): Option<State>
    requires WellFormed(s.grid) && IsOnBoard(r, c)
  {
    if s.grid[r][c] != Empty || MoveFlips(s.grid, s.player, r, c) == 0 then None
    else
      var g' := Placed(s.grid, s.player, r, c);
      Some(State(g', NextPlayer(g', s.player)))
  }

  /** What any bot's `getNextMove` must answer for the tournament's game
      loop: no move exactly when the player to move has none, otherwise a
      position where `placeDisk` succeeds. */
  predicate AnswersLegally(s: State, r: Option<MoveScore>)
    requires WellFormed(s.grid)
  {
    && (r.None? <==> CurrentMoves(s) == [])
    && (r.Some? ==> IsOnBoard(r.value.row, r.value.col) && Place(s, r.value.row, r.value.col).Some?)
  }

  /** The fresh game: four disks in the centre, player one to move. */
  function InitialCell(i: int, j: int): int
  {
    if (i == 3 && j == 3) || (i == 4 && j == 4) then PlayerOne
    else if (i == 3 && j == 4) || (i == 4 && j == 3) then PlayerTwo
    else Empty
  }

  function InitialGrid(): (g: Grid)
    ensures WellFormed(g)
    ensures forall i, j :: IsOnBoard(i, j) ==> g[i][j] == InitialCell(i, j)
  {
    seq(Size, i requires 0 <= i < Size => seq(Size, j requires 0 <= j < Size => InitialCell(i, j)))
  }

  function Initial(): State
  {
    State(InitialGrid(), PlayerOne)
  }

  /** A successful move leads to a valid state again. */
  lemma PlaceValid(s: State, r: int, c: int)
    requires ValidState(s) && IsOnBoard(r, c) && Place(s, r, c).Some?
    ensures ValidState(Place(s, r, c).value)
  {
    var g' := Placed(s.grid, s.player, r, c);
    forall x, y | 0 <= x < Size && 0 <= y < Size
      ensures 0 <= g'[x][y] <= 2
    {
      assert g'[x][y] == PlacedCell(s.grid, s.player, r, c, x, y);
    }
  }

  /** Every listed move is on the board, scores its positive flip total, and
      can be played: `placeDisk` at its position succeeds. */
  lemma ListedMoveIsPlayable(s: State, m: MoveScore)
    requires ValidState(s) && m in CurrentMoves(s)
    ensures IsOnBoard(m.row, m.col) && m.score == MoveFlips(s.grid, s.player, m.row, m.col) > 0
    ensures Place(s, m.row, m.col).Some?
    ensures ValidState(Place(s, m.row, m.col).value)
  {
    PossibleMovesSpec(s.grid, s.player);
    PlaceValid(s, m.row, m.col);
  }

  /** The skip rule after a successful move: the opponent moves next when it
      has a legal move, otherwise the mover moves again; and the player to
      move has no legal move exactly when the game is over. */
  lemma PlaceTurn(s: State, r: int, c: int)
    requires ValidState(s) && IsOnBoard(r, c) && Place(s, r, c).Some?
    ensures var t := Place(s, r, c).value;
      && (PossibleMoves(t.grid, Opponent(s.player)) != [] ==> t.player == Opponent(s.player))
      && (PossibleMoves(t.grid, Opponent(s.player)) == [] ==> t.player == s.player)
      && (CurrentMoves(t) == [] <==> GameOver(t.grid))
  {
  }
}
