/** The game engine: an 8x8 board mutated in place and the player to move.
    Every method is proved against the rules on board values. */
module Engine {
  import opened MoveScores
  import opened Board
  import opened Rules

  /** The engine's `RuntimeException` for an off-board ray origin. */
  datatype Result<T> = Ok(value: T) | Fault(message: string)

  class ReversiGame {
    var board: array2<int>
    var curPlayer: int

    ghost predicate Valid()
      reads this, board
    {
      && board.Length0 == Size && board.Length1 == Size
      && IsPlayer(curPlayer)
      && forall i, j :: 0 <= i < Size && 0 <= j < Size ==> 0 <= board[i, j] <= 2
    }

    /** The board as a value. */
    ghost function Cells(): (g: Grid)
      reads this`board, board
      requires board.Length0 == Size && board.Length1 == Size
      ensures WellFormed(g)
    {
      var b := board;
      seq(Size, i requires 0 <= i < b.Length0 reads b =>
        seq(Size, j requires 0 <= j < b.Length1 reads b => b[i, j]))
    }

    ghost function State(): (s: Rules.State)
      reads this, board
      requires Valid()
      ensures ValidState(s)
    {
      Rules.State(Cells(), curPlayer)
    }

    /** A game whose fields and board cells are untouched is in the same
        state. */
    twostate lemma StateKept()
      requires old(Valid()) && unchanged(this) && unchanged(board)
      ensures Valid() && State() == old(State())
    {
      assert Cells() == old(Cells());
    }

    /** The fresh game: four centre disks, player one to move. */
    constructor ()
      ensures Valid() && fresh(board)
      ensures State() == Initial()
    {
      curPlayer := PlayerOne;
      var size := 8;
      var b := new int[size, size]((i, j) => 0);
      b[size / 2 - 1, size / 2 - 1] := 1;
      b[size / 2, size / 2] := 1;
      b[size / 2, size / 2 - 1] := 2;
      b[size / 2 - 1, size / 2] := 2;
      forall x, y | 0 <= x < 8 && 0 <= y < 8
        ensures b[x, y] == InitialCell(x, y)
      {
      }
      board := b;
      new;
      GridExt(Cells(), InitialGrid());
    }

    /** The copy constructor: equal board and player, separate storage. */
    constructor Copy(game: ReversiGame)
      requires game.Valid()
      ensures Valid() && fresh(board)
      ensures State() == game.State()
    {
      curPlayer := game.curPlayer;
      var b := new int[game.board.Length0, game.board.Length1];
      for i := 0 to game.board.Length0
        invariant forall x, y :: 0 <= x < i && 0 <= y < Size ==> b[x, y] == game.board[x, y]
      {
        // the source bounds the inner loop by the row count too; the board is square
        for j := 0 to game.board.Length0
          invariant forall x, y :: (0 <= x < i && 0 <= y < Size) || (x == i && 0 <= y < j) ==>
            b[x, y] == game.board[x, y]
        {
          b[i, j] := game.board[i, j];
        }
      }
      board := b;
      new;
      GridExt(Cells(), game.Cells());
    }

    function IsOnBoard(row: int, col: int): (b: bool)
      reads this, board
      requires Valid()
      ensures b <==> 0 <= row < 8 && 0 <= col < 8
    {
      row < board.Length0 && col < board.Length1 && row >= 0 && col >= 0
    }

    /** The ray walk from (row, col): the number of opponent disks that `player`
        would flip in that direction; a fault when (row, col) is off the board. */
    method CalcFlipsInDirection(player: int, row: int, col: int, rowInc: int, colInc: int)
      returns (res: Result<nat>)
      requires Valid() && IsDirection(rowInc) && IsDirection(colInc)
      requires (rowInc, colInc) != (0, 0) || !Board.IsOnBoard(row, col) || board[row, col] != Opponent(player)
      ensures !Board.IsOnBoard(row, col) <==> res.Fault?
      ensures Board.IsOnBoard(row, col) ==>
        res == Ok(FlipsInDirection(Cells(), player, row, col, rowInc, colInc))
    {
      if !IsOnBoard(row, col) {
        return Fault("Position is off board");
      }
      ghost var g := Cells();
      var numOfFlips := 0;
      var curRow := row + rowInc;
      var curColumn := col + colInc;
      while IsOnBoard(curRow, curColumn) && board[curRow, curColumn] == Opponent(player)
        invariant curRow == Along(row, rowInc, numOfFlips + 1)
        invariant curColumn == Along(col, colInc, numOfFlips + 1)
        invariant Run(g, player, row, col, rowInc, colInc, 1)
          == numOfFlips + Run(g, player, row, col, rowInc, colInc, numOfFlips + 1)
        decreases Reach(curRow, rowInc) + Reach(curColumn, colInc)
      {
        numOfFlips := numOfFlips + 1;
        curRow := curRow + rowInc;
        curColumn := curColumn + colInc;
      }
      if IsOnBoard(curRow, curColumn) && board[curRow, curColumn] == player {
        return Ok(numOfFlips);
      }
      return Ok(0);
    }

    /** Flips the run of one direction for the player to move and returns its
        length: exactly steps 1..n of the ray become the mover's. */
    method UpdateMoveDisksInSingleDirection(row: int, col: int, rowInc: int, colInc: int)
      returns (n: nat)
      requires Valid() && Board.IsOnBoard(row, col) && IsDirection(rowInc) && IsDirection(colInc)
      requires (rowInc, colInc) != (0, 0) || board[row, col] != Opponent(curPlayer)
      modifies board
      ensures Valid()
      ensures n == FlipsInDirection(old(Cells()), curPlayer, row, col, rowInc, colInc)
      ensures RayPainted(Cells(), old(Cells()), curPlayer, row, col, rowInc, colInc, n)
      ensures Count(Cells(), curPlayer) == old(Count(Cells(), curPlayer)) + n
      ensures Count(Cells(), Opponent(curPlayer)) == old(Count(Cells(), Opponent(curPlayer))) - n
    {
      ghost var g := Cells();
      var res := CalcFlipsInDirection(curPlayer, row, col, rowInc, colInc);
      n := res.value;
      if n == 0 {
        assert RayPainted(Cells(), g, curPlayer, row, col, rowInc, colInc, 0);
        return;
      }
      FlipsSound(g, curPlayer, row, col, rowInc, colInc);
      PaintRun(row, col, rowInc, colInc, n);
    }

    /** The write loop of a direction whose first `n` steps are known to hold
        opponent disks. */
    method PaintRun(row: int, col: int, rowInc: int, colInc: int, n: nat)
      requires Valid() && IsDirection(rowInc) && IsDirection(colInc) && (rowInc, colInc) != (0, 0)
      requires forall j :: 1 <= j <= n ==>
        Holds(Cells(), Along(row, rowInc, j), Along(col, colInc, j), Opponent(curPlayer))
      modifies board
      ensures Valid()
      ensures RayPainted(Cells(), old(Cells()), curPlayer, row, col, rowInc, colInc, n)
      ensures Count(Cells(), curPlayer) == old(Count(Cells(), curPlayer)) + n
      ensures Count(Cells(), Opponent(curPlayer)) == old(Count(Cells(), Opponent(curPlayer))) - n
    {
      ghost var g := Cells();
      var curRow := row + rowInc;
      var curCol := col + colInc;
      for i := 0 to n
        invariant curRow == Along(row, rowInc, i + 1) && curCol == Along(col, colInc, i + 1)
        invariant Valid()
        invariant RayPainted(Cells(), g, curPlayer, row, col, rowInc, colInc, i)
        invariant Count(Cells(), curPlayer) == Count(g, curPlayer) + i
        invariant Count(Cells(), Opponent(curPlayer)) == Count(g, Opponent(curPlayer)) - i
      {
        ghost var before := Cells();
        assert Holds(g, curRow, curCol, Opponent(curPlayer));
        board[curRow, curCol] := curPlayer;
        PaintStep(g, before, Cells(), curPlayer, row, col, rowInc, colInc, i);
        curRow := curRow + rowInc;
        curCol := curCol + colInc;
      }
    }

    /** `placeDisk`: plays the player to move at (row, col). On an occupied
        cell or a move that flips nothing the game is unchanged and the answer
        is false; otherwise the board becomes the rules' board after the move,
        the turn passes as the rules say, and the mover gains the target plus
        every flipped disk while the opponent loses the flipped disks. */
    method PlaceDisk(row: int, col: int) returns (success: bool)
      requires Valid() && Board.IsOnBoard(row, col)
      modifies this, board
      ensures Valid() && board == old(board)
      ensures success == Place(old(State()), row, col).Some?
      ensures success ==> State() == Place(old(State()), row, col).value
      ensures !success ==> State() == old(State())
      ensures success ==>
        && Count(Cells(), old(curPlayer)) == old(Count(Cells(), curPlayer)) + 1 + old(MoveFlips(Cells(), curPlayer, row, col))
        && Count(Cells(), Opponent(old(curPlayer))) == old(Count(Cells(), Opponent(curPlayer))) - old(MoveFlips(Cells(), curPlayer, row, col))
    {
      if board[row, col] != 0 {
        return false;
      }
      ghost var g0 := Cells();
      ghost var p := curPlayer;
      assert Applied(Cells(), g0, p, row, col, 0);
      success := PlayAllDirections(row, col, g0);
      if !success {
        SumFlipsZero(g0, p, row, col, 9);
        GridExt(Cells(), g0);
        return;
      }
      GridExt(Cells(), Placed(g0, p, row, col));
      var next := SwitchToNextPlayablePlayer();
      curPlayer := next;
    }

    /** The two direction loops of `placeDisk`, run on the board `g0` with
        the target still empty: afterwards every direction is applied. */
    method PlayAllDirections(row: int, col: int, ghost g0: Grid) returns (placed: bool)
      requires Valid() && Board.IsOnBoard(row, col)
      requires WellFormed(g0) && g0[row][col] == Empty
      requires PartlyPlayed(Cells(), g0, curPlayer, row, col, 0, false)
      modifies board
      ensures Valid()
      ensures PartlyPlayed(Cells(), g0, curPlayer, row, col, 9, placed)
    {
      placed := false;
      for rowInc := -1 to 2
        invariant Valid()
        invariant PartlyPlayed(Cells(), g0, curPlayer, row, col, 3 * (rowInc + 1), placed)
      {
        placed := PlayRowOfDirections(row, col, rowInc, g0, placed);
      }
    }

    /** One pass of the inner direction loop of `placeDisk`: the three
        directions with row step `rowInc`. */
    method PlayRowOfDirections(row: int, col: int, rowInc: int, ghost g0: Grid, placed: bool)
      returns (placedNow: bool)
      requires Valid() && Board.IsOnBoard(row, col) && IsDirection(rowInc)
      requires WellFormed(g0) && g0[row][col] == Empty
      requires PartlyPlayed(Cells(), g0, curPlayer, row, col, 3 * (rowInc + 1), placed)
      modifies board
      ensures Valid()
      ensures PartlyPlayed(Cells(), g0, curPlayer, row, col, 3 * (rowInc + 2), placedNow)
    {
      placedNow := placed;
      for colInc := -1 to 2
        invariant Valid()
        invariant PartlyPlayed(Cells(), g0, curPlayer, row, col, 3 * rowInc + colInc + 4, placedNow)
      {
        placedNow := PlayDirection(row, col, rowInc, colInc, g0, placedNow);
      }
    }

    /** One iteration of the direction loops of `placeDisk`: flips the run of
        direction (rowInc, colInc) and, if it flipped anything, puts the
        mover's disk on the target. Measured on the board before the move,
        `g0`, the board now has one more direction applied. */
    method PlayDirection(row: int, col: int, rowInc: int, colInc: int, ghost g0: Grid, placed: bool)
      returns (placedNow: bool)
      requires Valid() && Board.IsOnBoard(row, col) && IsDirection(rowInc) && IsDirection(colInc)
      requires WellFormed(g0) && g0[row][col] == Empty && IsPlayer(curPlayer)
      requires PartlyPlayed(Cells(), g0, curPlayer, row, col, 3 * rowInc + colInc + 4, placed)
      modifies board
      ensures Valid()
      ensures PartlyPlayed(Cells(), g0, curPlayer, row, col, 3 * rowInc + colInc + 5, placedNow)
    {
      ghost var k := 3 * rowInc + colInc + 4;
      ghost var g := Cells();
      DirOfIndex(rowInc, colInc);
      SumFlipsStep(g0, curPlayer, row, col, rowInc, colInc);
      RayUntouched(g0, g, curPlayer, row, col, k);
      var n := UpdateMoveDisksInSingleDirection(row, col, rowInc, colInc);
      ghost var g1 := Cells();
      if n > 0 {
        PutDisk(row, col);
      }
      placedNow := placed || n > 0;
      AppliedStep(g0, g, g1, Cells(), curPlayer, row, col, k);
      AppliedStepCounts(g0, g, g1, Cells(), curPlayer, row, col, k);
    }

    /** The write of the mover's disk on the target of a move. */
    method PutDisk(row: int, col: int)
      requires Valid() && Board.IsOnBoard(row, col)
      modifies board
      ensures Valid()
      ensures Cells() == old(Cells()[row := Cells()[row][col := curPlayer]])
    {
      board[row, col] := curPlayer;
      GridExt(Cells(), old(Cells()[row := Cells()[row][col := curPlayer]]));
    }

    /** `calcMoveFlips`: zero on an occupied cell, otherwise the flip total of
        the eight directions. */
    method CalcMoveFlips(player: int, row: int, col: int) returns (flips: nat)
      requires Valid() && Board.IsOnBoard(row, col)
      ensures flips == MoveFlips(Cells(), player, row, col)
    {
      flips := 0;
      if board[row, col] != 0 {
        return 0;
      }
      for rowInc := -1 to 2
        invariant flips == SumFlips(Cells(), player, row, col, 3 * (rowInc + 1))
      {
        for colInc := -1 to 2
          invariant flips == SumFlips(Cells(), player, row, col, 3 * rowInc + colInc + 4)
        {
          SumFlipsStep(Cells(), player, row, col, rowInc, colInc);
          var res := CalcFlipsInDirection(player, row, col, rowInc, colInc);
          flips := flips + res.value;
        }
      }
    }

    /** `getPossibleMoves(player)`: a new array holding the rules' move list. */
    method GetPossibleMoves(player: int) returns (moves: array<MoveScore>)
      requires Valid()
      ensures fresh(moves)
      ensures moves[..] == PossibleMoves(Cells(), player)
    {
      // one slot per cell (CellCount is the board's rows times columns); the
      // slots past `index` stay unused, as the source's nulls do
      var possibleMoves := new MoveScore[CellCount](_ => MoveScore(0, 0, 0));
      var index: nat := 0;
      for row := 0 to board.Length0
        invariant index <= CellIndex(row, 0)
        invariant possibleMoves[..index] ==
          if row == 0 then [] else MovesBefore(FlipTable(Cells(), player), row - 1, Size)
      {
        index := ScanRow(player, row, possibleMoves, index);
      }
      moves := new MoveScore[index](i requires 0 <= i < index reads possibleMoves => possibleMoves[i]);
      assert moves[..] == possibleMoves[..index];
    }

    /** One pass of the column loop of `getPossibleMoves`: appends the legal
        moves of row `row` to the buffer. */
    method ScanRow(player: int, row: int, buf: array<MoveScore>, index: nat) returns (next: nat)
      requires Valid() && 0 <= row < Size && buf.Length == CellCount
      requires index <= CellIndex(row, 0)
      requires buf[..index] == MovesBefore(FlipTable(Cells(), player), row, 0)
      modifies buf
      ensures next <= CellIndex(row, Size)
      ensures buf[..next] == MovesBefore(FlipTable(Cells(), player), row, Size)
    {
      next := index;
      for col := 0 to board.Length1
        invariant next <= CellIndex(row, col)
        invariant buf[..next] == MovesBefore(FlipTable(Cells(), player), row, col)
      {
        next := ListCell(player, row, col, buf, next);
      }
    }

    /** One iteration of the column loop of `getPossibleMoves`: appends the
        move at (row, col) to the buffer if it flips anything. */
    method ListCell(player: int, row: int, col: int, buf: array<MoveScore>, index: nat)
      returns (next: nat)
      requires Valid() && Board.IsOnBoard(row, col) && buf.Length == CellCount
      requires index <= CellIndex(row, col)
      requires buf[..index] == MovesBefore(FlipTable(Cells(), player), row, col)
      modifies buf
      ensures next <= CellIndex(row, col) + 1
      ensures buf[..next] == MovesBefore(FlipTable(Cells(), player), row, col + 1)
    {
      var flips := CalcMoveFlips(player, row, col);
      FlipTableAt(Cells(), player, row, col);
      next := index;
      if flips > 0 {
        buf[index] := MoveScore(row, col, flips);
        assert buf[..index + 1] == old(buf[..index]) + [MoveScore(row, col, flips)];
        next := index + 1;
      }
    }

    /** `getPossibleMoves()`: the moves of the player to move. */
    method GetCurrentPossibleMoves() returns (moves: array<MoveScore>)
      requires Valid()
      ensures fresh(moves)
      ensures moves[..] == CurrentMoves(State())
    {
      moves := GetPossibleMoves(curPlayer);
    }

    /** `isGameOver`: neither player has a legal move. */
    method IsGameOver() returns (over: bool)
      requires Valid()
      ensures over == GameOver(Cells())
    {
      var one := GetPossibleMoves(PlayerOne);
      if one.Length != 0 {
        return false;
      }
      var two := GetPossibleMoves(PlayerTwo);
      return two.Length == 0;
    }

    /** `switchToNextPlayablePlayer`: the opponent moves next unless they have
        no legal move, in which case the turn stays. The board is untouched. */
    method SwitchToNextPlayablePlayer() returns (next: int)
      requires Valid()
      modifies this
      ensures Valid() && board == old(board) && Cells() == old(Cells())
      ensures next == curPlayer == NextPlayer(Cells(), old(curPlayer))
    {
      curPlayer := Opponent(curPlayer);
      var moves := GetCurrentPossibleMoves();
      if moves.Length == 0 {
        curPlayer := Opponent(curPlayer);
      }
      return curPlayer;
    }

    /** `getWinner`: -1 while the game is on, otherwise the player with more
        disks on the board, or 0 on a tie. */
    method GetWinner() returns (w: int)
      requires Valid()
      ensures w == Winner(Cells())
    {
      var over := IsGameOver();
      if !over {
        return -1;
      }
      var playerOneCount, playerTwoCount := CountDisks();
      if playerOneCount > playerTwoCount {
        return PlayerOne;
      } else if playerTwoCount > playerOneCount {
        return PlayerTwo;
      } else {
        return 0;
      }
    }

    /** The counting loops of `getWinner`: the disks of each player. */
    method CountDisks() returns (playerOneCount: nat, playerTwoCount: nat)
      requires Valid()
      ensures playerOneCount == Count(Cells(), PlayerOne)
      ensures playerTwoCount == Count(Cells(), PlayerTwo)
    {
      ghost var g := Cells();
      playerOneCount, playerTwoCount := 0, 0;
      for i := 0 to board.Length0
        invariant playerOneCount == RowsCount(g, PlayerOne, i)
        invariant playerTwoCount == RowsCount(g, PlayerTwo, i)
      {
        for j := 0 to board.Length1
          invariant playerOneCount == RowsCount(g, PlayerOne, i) + RowCount(g[i], PlayerOne, j)
          invariant playerTwoCount == RowsCount(g, PlayerTwo, i) + RowCount(g[i], PlayerTwo, j)
        {
          assert board[i, j] == g[i][j];
          if board[i, j] == PlayerOne {
            playerOneCount := playerOneCount + 1;
          }
          if board[i, j] == PlayerTwo {
            playerTwoCount := playerTwoCount + 1;
          }
        }
      }
    }
  }
}
