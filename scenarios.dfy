/** The fresh-game scenarios of the engine's unit tests, stated as facts about
    the rules and as calls on a fresh `ReversiGame`. */
module Scenarios {
  import opened MoveScores
  import opened Board
  import opened Rules
  import opened Engine

  /** A ray flips nothing when the run of opponent disks next to (r, c),
      here of length `k`, is empty or not closed by a disk of `p`. */
  lemma OpenRay(g: Grid, p: int, r: int, c: int, dr: int, dc: int, k: nat)
    requires WellFormed(g) && IsOnBoard(r, c) && IsDirection(dr) && IsDirection(dc) && (dr, dc) != (0, 0)
    requires forall j :: 1 <= j <= k ==> Holds(g, Along(r, dr, j), Along(c, dc, j), Opponent(p))
    requires !Holds(g, Along(r, dr, k + 1), Along(c, dc, k + 1), Opponent(p))
    requires k == 0 || !Holds(g, Along(r, dr, k + 1), Along(c, dc, k + 1), p)
    ensures FlipsInDirection(g, p, r, c, dr, dc) == 0
  {
    RunExact(g, p, r, c, dr, dc, 1, k);
  }

  /** The ray from (r, c) with increments (dr, dc) on the fresh board is
      open for player one: the run of player two's disks next to (r, c) (at
      most two of them on this board) is empty or not closed by a disk of
      player one. */
  predicate OpenOnInitial(r: int, c: int, dr: int, dc: int)
  {
    var k := if !InitialHolds(Along(r, dr, 1), Along(c, dc, 1), PlayerTwo) then 0
      else if !InitialHolds(Along(r, dr, 2), Along(c, dc, 2), PlayerTwo) then 1 else 2;
    && !InitialHolds(Along(r, dr, k + 1), Along(c, dc, k + 1), PlayerTwo)
    && (k == 0 || !InitialHolds(Along(r, dr, k + 1), Along(c, dc, k + 1), PlayerOne))
  }

  /** Cell (x, y) of the fresh board is on the board and holds `v`. */
  predicate InitialHolds(x: int, y: int, v: int)
  {
    IsOnBoard(x, y) && InitialCell(x, y) == v
  }

  /** An open ray flips nothing. */
  lemma InitialOpenRay(r: int, c: int, dr: int, dc: int)
    requires IsOnBoard(r, c) && IsDirection(dr) && IsDirection(dc) && (dr, dc) != (0, 0)
    requires OpenOnInitial(r, c, dr, dc)
    ensures FlipsInDirection(InitialGrid(), PlayerOne, r, c, dr, dc) == 0
  {
    var g := InitialGrid();
    var k := if !InitialHolds(Along(r, dr, 1), Along(c, dc, 1), PlayerTwo) then 0
      else if !InitialHolds(Along(r, dr, 2), Along(c, dc, 2), PlayerTwo) then 1 else 2;
    OpenRay(g, PlayerOne, r, c, dr, dc, k);
  }

  /** The flip total from an empty cell, direction by direction. */
  lemma SumOfDirections(g: Grid, p: int, r: int, c: int)
    requires WellFormed(g) && IsOnBoard(r, c) && g[r][c] != Opponent(p)
    ensures SumFlips(g, p, r, c, 9) ==
      FlipsInDirection(g, p, r, c, -1, -1) + FlipsInDirection(g, p, r, c, -1, 0) + FlipsInDirection(g, p, r, c, -1, 1) +
      FlipsInDirection(g, p, r, c, 0, -1) + FlipsInDirection(g, p, r, c, 0, 0) + FlipsInDirection(g, p, r, c, 0, 1) +
      FlipsInDirection(g, p, r, c, 1, -1) + FlipsInDirection(g, p, r, c, 1, 0) + FlipsInDirection(g, p, r, c, 1, 1)
  {
    SumFlipsStep(g, p, r, c, -1, -1);
    SumFlipsStep(g, p, r, c, -1, 0);
    SumFlipsStep(g, p, r, c, -1, 1);
    SumFlipsStep(g, p, r, c, 0, -1);
    SumFlipsStep(g, p, r, c, 0, 0);
    SumFlipsStep(g, p, r, c, 0, 1);
    SumFlipsStep(g, p, r, c, 1, -1);
    SumFlipsStep(g, p, r, c, 1, 0);
    SumFlipsStep(g, p, r, c, 1, 1);
  }

  /** A fresh-board cell that is empty and open in every direction is not a
      move for player one. */
  lemma QuietOnInitial(r: int, c: int)
    requires IsOnBoard(r, c) && InitialCell(r, c) == Empty
    requires OpenOnInitial(r, c, -1, -1) && OpenOnInitial(r, c, -1, 0) && OpenOnInitial(r, c, -1, 1)
    requires OpenOnInitial(r, c, 0, -1) && OpenOnInitial(r, c, 0, 1)
    requires OpenOnInitial(r, c, 1, -1) && OpenOnInitial(r, c, 1, 0) && OpenOnInitial(r, c, 1, 1)
    ensures MoveFlips(InitialGrid(), PlayerOne, r, c) == 0
    ensures Place(Initial(), r, c).None?
  {
    var g := InitialGrid();
    InitialOpenRay(r, c, -1, -1);
    InitialOpenRay(r, c, -1, 0);
    InitialOpenRay(r, c, -1, 1);
    InitialOpenRay(r, c, 0, -1);
    NoFlipsInPlace(g, PlayerOne, r, c);
    InitialOpenRay(r, c, 0, 1);
    InitialOpenRay(r, c, 1, -1);
    InitialOpenRay(r, c, 1, 0);
    InitialOpenRay(r, c, 1, 1);
    SumOfDirections(g, PlayerOne, r, c);
  }

  /** From the fresh board, player one cannot play at (3, 2), (5, 4), (0, 0)
      or (5, 2), where every ray is open, nor at the occupied (3, 3) and
      (3, 4). */
  lemma InitialRejects()
    ensures Place(Initial(), 3, 2).None? && Place(Initial(), 5, 4).None? && Place(Initial(), 0, 0).None?
    ensures Place(Initial(), 3, 3).None? && Place(Initial(), 3, 4).None? && Place(Initial(), 5, 2).None?
  {
    InitialRejectsOpen(3, 2);
    InitialRejectsOpen(5, 4);
    InitialRejectsOpen(0, 0);
    InitialRejectsOpen(5, 2);
  }

  /** One of the empty cells of `InitialRejects`, each open in every
      direction. */
  lemma InitialRejectsOpen(r: int, c: int)
    requires (r, c) == (3, 2) || (r, c) == (5, 4) || (r, c) == (0, 0) || (r, c) == (5, 2)
    ensures Place(Initial(), r, c).None?
  {
    QuietOnInitial(r, c);
  }

  /** From the fresh board, player one can play at (2, 4), which flips one
      disk in all (`InitialFlip` says which). */
  lemma InitialAccepts()
    ensures MoveFlips(InitialGrid(), PlayerOne, 2, 4) == 1
    ensures Place(Initial(), 2, 4).Some?
  {
    var g := InitialGrid();
    InitialOpenRay(2, 4, -1, -1);
    InitialOpenRay(2, 4, -1, 0);
    InitialOpenRay(2, 4, -1, 1);
    InitialOpenRay(2, 4, 0, -1);
    NoFlipsInPlace(g, PlayerOne, 2, 4);
    InitialOpenRay(2, 4, 0, 1);
    InitialOpenRay(2, 4, 1, -1);
    FlipsComplete(g, PlayerOne, 2, 4, 1, 0, 1);
    InitialOpenRay(2, 4, 1, 1);
    SumOfDirections(g, PlayerOne, 2, 4);
  }

  /** The disk that (2, 4) flips is player two's disk at (3, 4). */
  lemma InitialFlip()
    ensures Place(Initial(), 2, 4).Some?
    ensures InitialCell(3, 4) == PlayerTwo && Place(Initial(), 2, 4).value.grid[3][4] == PlayerOne
  {
    InitialAccepts();
    InitialSouthRay();
    PlacedNeighbour(Initial(), 2, 4, 1, 0);
  }

  /** On the fresh board, the ray from (2, 4) down the column flips one
      disk for player one. */
  lemma InitialSouthRay()
    ensures FlipsInDirection(InitialGrid(), PlayerOne, 2, 4, 1, 0) == 1
  {
    FlipsComplete(InitialGrid(), PlayerOne, 2, 4, 1, 0, 1);
  }

  /** An accepted move whose ray (dr, dc) flips something takes the first
      cell of that ray. */
  lemma PlacedNeighbour(s: State, r: int, c: int, dr: int, dc: int)
    requires WellFormed(s.grid) && IsOnBoard(r, c) && Place(s, r, c).Some?
    requires IsDirection(dr) && IsDirection(dc) && (dr, dc) != (0, 0)
    requires FlipsInDirection(s.grid, s.player, r, c, dr, dc) > 0 && IsOnBoard(r + dr, c + dc)
    ensures Place(s, r, c).value.grid[r + dr][c + dc] == s.player
  {
    assert Flipped(s.grid, s.player, r, c, r + dr, c + dc, 9);
  }

  /** So the fresh game is not over and has no winner yet. */
  lemma InitialNotOver()
    ensures !GameOver(InitialGrid()) && Winner(InitialGrid()) == -1
  {
    InitialAccepts();
    HasMoveIff(InitialGrid(), PlayerOne, 2, 4);
  }

  /** `testIsGameOverFalseForInitialBoard` and
      `testGetWinnerNoWinnerForInitialBoard`: a fresh game is not over and
      `getWinner` answers -1. */
  method FreshGame() returns (over: bool, winner: int)
    ensures !over && winner == -1
  {
    var game := new ReversiGame();
    InitialNotOver();
    over := game.IsGameOver();
    winner := game.GetWinner();
  }

  /** `testPlaceDisksFromInitialState2`: `placeDisk(2, 4)` on a fresh game
      succeeds. */
  method FirstMoveAccepted() returns (success: bool)
    ensures success
  {
    var game := new ReversiGame();
    InitialAccepts();
    success := game.PlaceDisk(2, 4);
  }

  /** `testIsValidMoveInitialStatePlayer1False`: six placements in turn on
      a fresh game all fail, each leaving the game as it was. */
  method FirstMovesRejected() returns (results: seq<bool>)
    ensures results == [false, false, false, false, false, false]
  {
    var game := new ReversiGame();
    InitialRejects();
    var a := game.PlaceDisk(3, 2);
    var b := game.PlaceDisk(5, 4);
    var c := game.PlaceDisk(0, 0);
    var d := game.PlaceDisk(3, 3);
    var e := game.PlaceDisk(3, 4);
    var f := game.PlaceDisk(5, 2);
    results := [a, b, c, d, e, f];
  }
}
