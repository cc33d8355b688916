/** The 8x8 board as a value, the geometry of the eight rays leaving a cell,
    and the flip count of one ray (the ray walk of `calcFlipsInDirection`). */
module Board {

  const Size: int := 8
  /** Size * Size, the number of cells, written out so that bounds stay linear. */
  const CellCount: int := 64
  const Empty: int := 0
  const PlayerOne: int := 1
  const PlayerTwo: int := 2

  /** Row-major grid of cells: 0 empty, 1 and 2 the players' disks. */
  type Grid = seq<seq<int>>

  predicate WellFormed(g: Grid)
  {
    |g| == Size && forall i :: 0 <= i < Size ==> |g[i]| == Size
  }

  predicate CellsInRange(g: Grid)
    requires WellFormed(g)
  {
    forall i, j :: 0 <= i < Size && 0 <= j < Size ==> 0 <= g[i][j] <= 2
  }

  predicate IsPlayer(p: int)
  {
    p == PlayerOne || p == PlayerTwo
  }

  predicate IsOnBoard(row: int, col: int)
  {
    0 <= row < Size && 0 <= col < Size
  }

  /** The other player. Any number other than 1 is treated as player two,
      so player one is its opponent. */
  function Opponent(p: int): (q: int)
    ensures IsPlayer(q) && q != p
    ensures IsPlayer(p) ==> p + q == 3
  {
    if p == PlayerOne then PlayerTwo else PlayerOne
  }

  lemma OpponentInvolutive(p: int)
    requires IsPlayer(p)
    ensures Opponent(Opponent(p)) == p
  {
  }

  /** Two grids agree on every cell. */
  lemma GridExt(g1: Grid, g2: Grid)
    requires WellFormed(g1) && WellFormed(g2)
    requires forall x, y :: IsOnBoard(x, y) ==> g1[x][y] == g2[x][y]
    ensures g1 == g2
  {
    forall x | 0 <= x < Size
      ensures g1[x] == g2[x]
    {
      assert forall y :: 0 <= y < Size ==> g1[x][y] == g2[x][y];
    }
  }

  // ---------------------------------------------------------------------
  // Directions and rays
  // ---------------------------------------------------------------------

  predicate IsDirection(d: int)
  {
    -1 <= d <= 1
  }

  /** Coordinate `x` moved `k` steps with increment `d` in {-1, 0, 1}. */
  function Along(x: int, d: int, k: int): int
  {
    if d == 0 then x else if d > 0 then x + k else x - k
  }

  /** Steps left before coordinate `x` leaves the board moving by `d`. */
  function Reach(x: int, d: int): int
  {
    if d > 0 then Size - x else if d < 0 then x + 1 else 0
  }

  predicate Holds(g: Grid, x: int, y: int, v: int)
    requires WellFormed(g)
  {
    IsOnBoard(x, y) && g[x][y] == v
  }

  /** The number of consecutive opponent disks on the ray from (r, c) with
      increments (dr, dc), starting at step `i`. With no increment the ray
      never moves, so the cell there must not be the opponent's (the source
      would loop forever). */
  function Run(g: Grid, p: int, r: int, c: int, dr: int, dc: int, i: nat): nat
    requires WellFormed(g) && IsDirection(dr) && IsDirection(dc)
    requires (dr, dc) != (0, 0) || !Holds(g, r, c, Opponent(p))
    decreases Reach(Along(r, dr, i), dr) + Reach(Along(c, dc, i), dc)
  {
    if Holds(g, Along(r, dr, i), Along(c, dc, i), Opponent(p))
    then 1 + Run(g, p, r, c, dr, dc, i + 1)
    else 0
  }

  /** The disks `p` flips along one ray by playing at (r, c): the run of opponent
      disks next to (r, c), provided the run is closed by a disk of `p`. */
  function FlipsInDirection(g: Grid, p: int, r: int, c: int, dr: int, dc: int): nat
    requires WellFormed(g) && IsOnBoard(r, c) && IsDirection(dr) && IsDirection(dc)
    requires (dr, dc) != (0, 0) || g[r][c] != Opponent(p)
  {
    var n := Run(g, p, r, c, dr, dc, 1);
    if Holds(g, Along(r, dr, n + 1), Along(c, dc, n + 1), p) then n else 0
  }

  lemma {:induction false} RunSpec(g: Grid, p: int, r: int, c: int, dr: int, dc: int, i: nat)
    requires WellFormed(g) && IsDirection(dr) && IsDirection(dc)
    requires (dr, dc) != (0, 0) || !Holds(g, r, c, Opponent(p))
    ensures forall j :: i <= j < i + Run(g, p, r, c, dr, dc, i) ==>
      Holds(g, Along(r, dr, j), Along(c, dc, j), Opponent(p))
    ensures !Holds(g, Along(r, dr, i + Run(g, p, r, c, dr, dc, i)),
                   Along(c, dc, i + Run(g, p, r, c, dr, dc, i)), Opponent(p))
    decreases Reach(Along(r, dr, i), dr) + Reach(Along(c, dc, i), dc)
  {
    if Holds(g, Along(r, dr, i), Along(c, dc, i), Opponent(p)) {
      RunSpec(g, p, r, c, dr, dc, i + 1);
    }
  }

  lemma {:induction false} RunExact(g: Grid, p: int, r: int, c: int, dr: int, dc: int, i: nat, k: nat)
    requires WellFormed(g) && IsDirection(dr) && IsDirection(dc)
    requires (dr, dc) != (0, 0) || !Holds(g, r, c, Opponent(p))
    requires forall j :: i <= j < i + k ==> Holds(g, Along(r, dr, j), Along(c, dc, j), Opponent(p))
    requires !Holds(g, Along(r, dr, i + k), Along(c, dc, i + k), Opponent(p))
    ensures Run(g, p, r, c, dr, dc, i) == k
    decreases k
  {
    if k > 0 {
      assert Holds(g, Along(r, dr, i), Along(c, dc, i), Opponent(p));
      RunExact(g, p, r, c, dr, dc, i + 1, k - 1);
    }
  }

  /** A positive flip count means: the `n` cells after (r, c) on the ray hold
      the opponent and cell `n + 1` is on the board and holds `p`. */
  lemma FlipsSound(g: Grid, p: int, r: int, c: int, dr: int, dc: int)
    requires WellFormed(g) && IsOnBoard(r, c) && IsDirection(dr) && IsDirection(dc)
    requires (dr, dc) != (0, 0) || g[r][c] != Opponent(p)
    ensures var n := FlipsInDirection(g, p, r, c, dr, dc);
      n > 0 ==>
        && (dr, dc) != (0, 0)
        && (forall j :: 1 <= j <= n ==> Holds(g, Along(r, dr, j), Along(c, dc, j), Opponent(p)))
        && Holds(g, Along(r, dr, n + 1), Along(c, dc, n + 1), p)
  {
    RunSpec(g, p, r, c, dr, dc, 1);
  }

  /** Conversely, a closed run of `k > 0` opponent disks is exactly the count. */
  lemma FlipsComplete(g: Grid, p: int, r: int, c: int, dr: int, dc: int, k: nat)
    requires WellFormed(g) && IsOnBoard(r, c) && IsDirection(dr) && IsDirection(dc)
    requires (dr, dc) != (0, 0) || g[r][c] != Opponent(p)
    requires k > 0
    requires forall j :: 1 <= j <= k ==> Holds(g, Along(r, dr, j), Along(c, dc, j), Opponent(p))
    requires Holds(g, Along(r, dr, k + 1), Along(c, dc, k + 1), p)
    ensures FlipsInDirection(g, p, r, c, dr, dc) == k
  {
    RunExact(g, p, r, c, dr, dc, 1, k);
  }

  /** With no increment the walk never leaves (r, c): nothing is flipped. */
  lemma NoFlipsInPlace(g: Grid, p: int, r: int, c: int)
    requires WellFormed(g) && IsOnBoard(r, c) && g[r][c] != Opponent(p)
    ensures FlipsInDirection(g, p, r, c, 0, 0) == 0
  {
  }

  lemma {:induction false} RunFrame(g1: Grid, g2: Grid, p: int, r: int, c: int, dr: int, dc: int, i: nat)
    requires WellFormed(g1) && WellFormed(g2) && IsDirection(dr) && IsDirection(dc)
    requires (dr, dc) != (0, 0) && i >= 1
    requires forall j :: j >= 1 && IsOnBoard(Along(r, dr, j), Along(c, dc, j)) ==>
      g1[Along(r, dr, j)][Along(c, dc, j)] == g2[Along(r, dr, j)][Along(c, dc, j)]
    ensures Run(g1, p, r, c, dr, dc, i) == Run(g2, p, r, c, dr, dc, i)
    decreases Reach(Along(r, dr, i), dr) + Reach(Along(c, dc, i), dc)
  {
    if Holds(g1, Along(r, dr, i), Along(c, dc, i), Opponent(p)) {
      RunFrame(g1, g2, p, r, c, dr, dc, i + 1);
    }
  }

  /** The flip count of a ray depends on the cells of that ray only. */
  lemma FlipsFrame(g1: Grid, g2: Grid, p: int, r: int, c: int, dr: int, dc: int)
    requires WellFormed(g1) && WellFormed(g2) && IsOnBoard(r, c)
    requires IsDirection(dr) && IsDirection(dc) && (dr, dc) != (0, 0)
    requires forall j :: j >= 1 && IsOnBoard(Along(r, dr, j), Along(c, dc, j)) ==>
      g1[Along(r, dr, j)][Along(c, dc, j)] == g2[Along(r, dr, j)][Along(c, dc, j)]
    ensures FlipsInDirection(g1, p, r, c, dr, dc) == FlipsInDirection(g2, p, r, c, dr, dc)
  {
    RunFrame(g1, g2, p, r, c, dr, dc, 1);
  }

  // ---------------------------------------------------------------------
  // Which ray a cell lies on
  // ---------------------------------------------------------------------

  function Sign(d: int): int
  {
    if d > 0 then 1 else if d < 0 then -1 else 0
  }

  function Abs(d: int): int
  {
    if d < 0 then -d else d
  }

  /** (x, y) differs from (r, c) and lies on one of the eight rays from it. */
  predicate Aligned(r: int, c: int, x: int, y: int)
  {
    var dx, dy := x - r, y - c;
    (dx != 0 || dy != 0) && (dx == 0 || dy == 0 || dx == dy || dx == -dy)
  }

  /** The number of steps from (r, c) to (x, y) along their common ray. */
  function Distance(r: int, c: int, x: int, y: int): int
  {
    if Abs(x - r) >= Abs(y - c) then Abs(x - r) else Abs(y - c)
  }

  /** (x, y) is one of steps 1..n of the ray from (r, c) with increments (dr, dc). */
  predicate OnRay(r: int, c: int, dr: int, dc: int, x: int, y: int, n: int)
  {
    Aligned(r, c, x, y) && Sign(x - r) == dr && Sign(y - c) == dc && Distance(r, c, x, y) <= n
  }

  /** Step `i` of a ray is aligned with its origin, in the ray's direction,
      at distance `i`. */
  lemma AlongIsOnRay(r: int, c: int, dr: int, dc: int, i: int)
    requires IsDirection(dr) && IsDirection(dc) && (dr, dc) != (0, 0) && i >= 1
    ensures Aligned(r, c, Along(r, dr, i), Along(c, dc, i))
    ensures Sign(Along(r, dr, i) - r) == dr && Sign(Along(c, dc, i) - c) == dc
    ensures Distance(r, c, Along(r, dr, i), Along(c, dc, i)) == i
  {
  }

  /** An aligned cell is reached by walking its distance along its direction. */
  lemma AlignedIsAlong(r: int, c: int, x: int, y: int)
    requires Aligned(r, c, x, y)
    ensures IsDirection(Sign(x - r)) && IsDirection(Sign(y - c)) && (Sign(x - r), Sign(y - c)) != (0, 0)
    ensures Distance(r, c, x, y) >= 1
    ensures x == Along(r, Sign(x - r), Distance(r, c, x, y))
    ensures y == Along(c, Sign(y - c), Distance(r, c, x, y))
  {
  }

  /** Extending a ray by one step adds exactly the cell at that step. */
  lemma OnRayStep(r: int, c: int, dr: int, dc: int, x: int, y: int, i: nat)
    requires IsDirection(dr) && IsDirection(dc) && (dr, dc) != (0, 0)
    ensures OnRay(r, c, dr, dc, x, y, i + 1) <==>
      OnRay(r, c, dr, dc, x, y, i) || (x == Along(r, dr, i + 1) && y == Along(c, dc, i + 1))
  {
    AlongIsOnRay(r, c, dr, dc, i + 1);
    if Aligned(r, c, x, y) {
      AlignedIsAlong(r, c, x, y);
    }
  }
}
