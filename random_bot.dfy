/** `RandomPlayerBot`: any one of the current player's legal moves, picked
    by a single `nextInt`. */
module RandomBots {
  import opened MoveScores
  import opened Board
  import opened Rules
  import opened Engine
  import opened Randomness

  /** The move `getRandomMove` answers on a draw stream: none when there is
      no move, otherwise the move at the drawn index. */
  function RandomPick(moves: seq<MoveScore>, draws: seq<int>): (r: Option<MoveScore>)
    ensures r.None? <==> moves == []
    ensures r.Some? ==> r.value in moves
  {
    if moves == [] then None else Some(moves[Draw(draws, |moves|)])
  }

  /** No move is out of reach: each is the answer on some stream. */
  lemma EveryMoveCanBePicked(moves: seq<MoveScore>, k: int)
    requires 0 <= k < |moves|
    ensures RandomPick(moves, [k]) == Some(moves[k])
  {
  }

  /** Whatever the draw, the random bot's answer is a legal move: it flips
      at least one disk and `placeDisk` accepts it. */
  lemma RandomChoice(s: State, draws: seq<int>)
    requires ValidState(s)
    ensures RandomPick(CurrentMoves(s), draws).None? <==> CurrentMoves(s) == []
    ensures RandomPick(CurrentMoves(s), draws).Some? ==>
      var m := RandomPick(CurrentMoves(s), draws).value;
      m.score > 0 && IsOnBoard(m.row, m.col) && Place(s, m.row, m.col).Some?
  {
    if CurrentMoves(s) != [] {
      ListedMoveIsPlayable(s, RandomPick(CurrentMoves(s), draws).value);
    }
  }

  class RandomPlayerBot {
    const game: ReversiGame
    const rnd: Random

    constructor (game: ReversiGame, rnd: Random)
      ensures this.game == game && this.rnd == rnd
    {
      this.game := game;
      this.rnd := rnd;
    }

    /** `getNextMove()`: the random move, which is a legal answer. */
    method GetNextMove() returns (r: Option<MoveScore>)
      requires game.Valid()
      modifies rnd
      ensures AnswersLegally(old(game.State()), r)
    {
      ghost var st := game.State();
      ghost var draws := rnd.draws;
      r := GetRandomMove();
      RandomChoice(st, draws);
    }

    /** `getRandomMove()`: none, without drawing, when there is no legal
        move; otherwise the move at the drawn index (`RandomChoice` says
        it is legal). */
    method GetRandomMove() returns (r: Option<MoveScore>)
      requires game.Valid()
      modifies rnd
      ensures r == RandomPick(CurrentMoves(old(game.State())), old(rnd.draws))
      ensures r.None? ==> unchanged(rnd)
    {
      var possibleMoves := game.GetCurrentPossibleMoves();
      if possibleMoves.Length == 0 {
        return None;
      }
      var k := rnd.NextInt(possibleMoves.Length);
      r := Some(possibleMoves[k]);
    }
  }
}
