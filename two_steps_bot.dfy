/** `TwoStepsBot`: score every legal move by its flips minus the best greedy
    reply on a copy of the game after the move, then take the first best
    score of a shuffled list. */
module TwoStepsBots {
  import opened MoveScores
  import opened Board
  import opened Rules
  import opened Engine
  import opened Randomness
  import opened Comparator
  import opened GreedyBots

  /** The state a copy of the game is in after `placeDisk` at the move's
      position: the rules' next state, or the same state if the move fails. */
  function AfterMove(s: State, m: MoveScore): (t: State)
    requires ValidState(s) && IsOnBoard(m.row, m.col)
    ensures WellFormed(t.grid)
  {
    var o := Place(s, m.row, m.col);
    if o.Some? then o.value else s
  }

  /** The copy is a legal game after the move. */
  lemma AfterMoveValid(s: State, m: MoveScore)
    requires ValidState(s) && IsOnBoard(m.row, m.col)
    ensures ValidState(AfterMove(s, m))
  {
    if Place(s, m.row, m.col).Some? {
      PlaceValid(s, m.row, m.col);
    }
  }

  /** `getTwoStepsGreedyMove(moveToEvaluate)`: the move's own score less the
      best score open to whoever is to move on the copy, or its own score
      when nobody can move there. */
  function TwoStepScore(s: State, m: MoveScore): (r: MoveScore)
    requires ValidState(s) && IsOnBoard(m.row, m.col)
  {
    var replies := CurrentMoves(AfterMove(s, m));
    MoveScore(m.row, m.col, if replies == [] then m.score else m.score - MaxScore(replies))
  }

  /** The two-step score keeps the position and is the least, over the
      replies open on the copy, of own score minus reply score; with no
      reply it is the move's own score. */
  lemma TwoStepScoreIsWorstReply(s: State, m: MoveScore)
    requires ValidState(s) && IsOnBoard(m.row, m.col)
    ensures var r := TwoStepScore(s, m); var replies := CurrentMoves(AfterMove(s, m));
      && r.row == m.row && r.col == m.col
      && (replies == [] ==> r.score == m.score)
      && (forall x :: x in replies ==> r.score <= m.score - x.score)
      && (replies != [] ==> exists x :: x in replies && r.score == m.score - x.score)
  {
    var replies := CurrentMoves(AfterMove(s, m));
    if replies != [] {
      MaxScoreAttained(replies);
      forall x | x in replies
        ensures x.score <= MaxScore(replies)
      {
        var j :| 0 <= j < |replies| && replies[j] == x;
      }
    }
  }

  /** Whatever order the greedy reply scans, the score it leads to is the
      two-step score. */
  lemma ReplyDecidesScore(s: State, m: MoveScore, replyOrder: seq<MoveScore>)
    requires ValidState(s) && IsOnBoard(m.row, m.col)
    requires multiset(replyOrder) == multiset(CurrentMoves(AfterMove(s, m)))
    ensures var reply := Greedy(replyOrder);
      TwoStepScore(s, m) == MoveScore(m.row, m.col, if reply.None? then m.score else m.score - reply.value.score)
  {
    GreedyOverPermutation(replyOrder, CurrentMoves(AfterMove(s, m)));
  }

  /** The candidates of `getTwoStepsGreedyMoveScoreForMoves`, one per move
      in the same order. */
  function TwoStepScores(s: State, moves: seq<MoveScore>): (r: seq<MoveScore>)
    requires ValidState(s) && forall i :: 0 <= i < |moves| ==> IsOnBoard(moves[i].row, moves[i].col)
    ensures |r| == |moves|
  {
    if moves == [] then []
    else TwoStepScores(s, moves[..|moves| - 1]) + [TwoStepScore(s, moves[|moves| - 1])]
  }

  /** The candidates of a prefix one move longer end with that move's
      two-step score. */
  lemma TwoStepScoresSnoc(s: State, moves: seq<MoveScore>, i: int)
    requires ValidState(s) && forall k :: 0 <= k < |moves| ==> IsOnBoard(moves[k].row, moves[k].col)
    requires 0 <= i < |moves|
    ensures TwoStepScores(s, moves[..i + 1]) == TwoStepScores(s, moves[..i]) + [TwoStepScore(s, moves[i])]
  {
    assert moves[..i + 1][..i] == moves[..i];
  }

  /** Each candidate is the two-step score of the move at the same index. */
  lemma {:induction false} TwoStepScoresAt(s: State, moves: seq<MoveScore>, j: int)
    requires ValidState(s) && forall i :: 0 <= i < |moves| ==> IsOnBoard(moves[i].row, moves[i].col)
    requires 0 <= j < |moves|
    ensures TwoStepScores(s, moves)[j] == TwoStepScore(s, moves[j])
  {
    if j < |moves| - 1 {
      TwoStepScoresAt(s, moves[..|moves| - 1], j);
    }
  }

  /** The candidates for the current player's legal moves. */
  function Candidates(s: State): (r: seq<MoveScore>)
    requires ValidState(s)
    ensures |r| == |CurrentMoves(s)|
  {
    ListedMovesOnBoard(s);
    TwoStepScores(s, CurrentMoves(s))
  }

  /** Evaluating a legal move: `placeDisk` on the copy succeeds, and the
      "no reply" case is exactly the copy's game being over. */
  lemma LegalMoveEvaluation(s: State, m: MoveScore)
    requires ValidState(s) && m in CurrentMoves(s)
    ensures IsOnBoard(m.row, m.col) && Place(s, m.row, m.col).Some?
    ensures AfterMove(s, m) == Place(s, m.row, m.col).value
    ensures CurrentMoves(AfterMove(s, m)) == [] <==> GameOver(AfterMove(s, m).grid)
    ensures GameOver(AfterMove(s, m).grid) ==> TwoStepScore(s, m).score == m.score
  {
    ListedMoveIsPlayable(s, m);
    PlaceTurn(s, m.row, m.col);
  }

  /** The legal moves are on the board, so each can be evaluated. */
  lemma ListedMovesOnBoard(s: State)
    requires ValidState(s)
    ensures forall i :: 0 <= i < |CurrentMoves(s)| ==>
      IsOnBoard(CurrentMoves(s)[i].row, CurrentMoves(s)[i].col)
  {
    forall i | 0 <= i < |CurrentMoves(s)|
      ensures IsOnBoard(CurrentMoves(s)[i].row, CurrentMoves(s)[i].col)
    {
      ListedMoveIsPlayable(s, CurrentMoves(s)[i]);
    }
  }

  /** Every legal move's two-step score is among the candidates. */
  lemma CandidateOfMove(s: State, m: MoveScore)
    requires ValidState(s) && m in CurrentMoves(s)
    ensures IsOnBoard(m.row, m.col) && TwoStepScore(s, m) in Candidates(s)
  {
    var moves := CurrentMoves(s);
    ListedMovesOnBoard(s);
    var j :| 0 <= j < |moves| && moves[j] == m;
    TwoStepScoresAt(s, moves, j);
    assert Candidates(s)[j] == TwoStepScore(s, m);
  }

  /** Every candidate is the two-step score of a legal move, at that move's
      position, which `placeDisk` accepts. */
  lemma MoveOfCandidate(s: State, x: MoveScore)
    requires ValidState(s) && x in Candidates(s)
    ensures exists m :: m in CurrentMoves(s) && x == TwoStepScore(s, m)
    ensures Place(s, x.row, x.col).Some?
  {
    var moves := CurrentMoves(s);
    ListedMovesOnBoard(s);
    var i :| 0 <= i < |Candidates(s)| && Candidates(s)[i] == x;
    TwoStepScoresAt(s, moves, i);
    assert moves[i] in moves;
    LegalMoveEvaluation(s, moves[i]);
  }

  /** The choice over any shuffle of the candidates: none exactly when there
      is no legal move, otherwise the two-step score of some legal move (so
      its position is legal) that is at least every legal move's. */
  lemma TwoStepChoice(s: State, order: seq<MoveScore>)
    requires ValidState(s)
    requires multiset(order) == multiset(Candidates(s))
    ensures Greedy(order).None? <==> CurrentMoves(s) == []
    ensures Greedy(order).Some? ==>
      exists m :: m in CurrentMoves(s) && Greedy(order).value == TwoStepScore(s, m)
    ensures Greedy(order).Some? ==>
      forall m :: m in CurrentMoves(s) ==> TwoStepScore(s, m).score <= Greedy(order).value.score
    ensures Greedy(order).Some? ==> Place(s, Greedy(order).value.row, Greedy(order).value.col).Some?
  {
    SameMembers(order, Candidates(s));
    assert |order| == |Candidates(s)| by {
      assert |multiset(order)| == |multiset(Candidates(s))|;
    }
    if order != [] {
      MoveOfCandidate(s, Greedy(order).value);
      forall m | m in CurrentMoves(s)
        ensures TwoStepScore(s, m).score <= Greedy(order).value.score
      {
        CandidateOfMove(s, m);
      }
    }
  }

  class TwoStepsBot {
    const game: ReversiGame
    const rnd: Random

    constructor (game: ReversiGame, rnd: Random)
      ensures this.game == game && this.rnd == rnd
    {
      this.game := game;
      this.rnd := rnd;
    }

    /** `getNextMove()`: the two-step move, which is a legal answer. */
    method GetNextMove() returns (r: Option<MoveScore>)
      requires game.Valid()
      modifies rnd
      ensures AnswersLegally(old(game.State()), r)
    {
      ghost var st := game.State();
      ghost var order;
      r, order := GetTwoStepsGreedyMove();
      TwoStepChoice(st, order);
    }

    /** `getTwoStepsGreedyMove()`. The ghost `order` is the shuffled list of
        candidates; the answer is the head of its stable descending sort,
        which is its first maximum (`TwoStepChoice` says what that is). The
        game itself is only read: every simulation runs on a copy. */
    method GetTwoStepsGreedyMove() returns (r: Option<MoveScore>, ghost order: seq<MoveScore>)
      requires game.Valid()
      modifies rnd
      ensures multiset(order) == multiset(Candidates(old(game.State())))
      ensures r == Greedy(order)
    {
      var moveScores := CandidateScores();
      Shuffle(moveScores, rnd);
      order := moveScores[..];
      r := SortAndTakeFirst(moveScores);
    }

    /** The first two steps of `getTwoStepsGreedyMove()`: the legal moves,
        then a new array of their candidates. */
    method CandidateScores() returns (moveScores: array<MoveScore>)
      requires game.Valid()
      modifies rnd
      ensures fresh(moveScores)
      ensures moveScores[..] == Candidates(old(game.State()))
    {
      ghost var st := game.State();
      var moves := game.GetCurrentPossibleMoves();
      ListedMovesOnBoard(st);
      moveScores := GetTwoStepsGreedyMoveScoreForMoves(moves);
    }

    /** `getTwoStepsGreedyMoveScoreForMoves`: a new array holding each
        move's candidate. */
    method GetTwoStepsGreedyMoveScoreForMoves(moves: array<MoveScore>) returns (scores: array<MoveScore>)
      requires game.Valid()
      requires forall i :: 0 <= i < moves.Length ==> IsOnBoard(moves[i].row, moves[i].col)
      modifies rnd
      ensures fresh(scores)
      ensures scores[..] == TwoStepScores(old(game.State()), moves[..])
    {
      ghost var st := game.State();
      scores := new MoveScore[moves.Length](_ => MoveScore(0, 0, 0));
      for i := 0 to moves.Length
        invariant unchanged(game) && unchanged(game.board)
        invariant scores[..i] == TwoStepScores(st, moves[..i])
      {
        game.StateKept();
        scores[i] := GetTwoStepsGreedyMoveFor(moves[i]);
        TwoStepScoresSnoc(st, moves[..], i);
        assert scores[..i + 1] == scores[..i] + [scores[i]];
      }
      assert moves[..moves.Length] == moves[..] && scores[..moves.Length] == scores[..];
    }

    /** `getTwoStepsGreedyMove(moveToEvaluate)`: play the move on a copy,
        let a greedy bot choose on the copy, and subtract its score. */
    method GetTwoStepsGreedyMoveFor(moveToEvaluate: MoveScore) returns (c: MoveScore)
      requires game.Valid() && IsOnBoard(moveToEvaluate.row, moveToEvaluate.col)
      modifies rnd
      ensures c == TwoStepScore(old(game.State()), moveToEvaluate)
    {
      ghost var st := game.State();
      var gameCopy := PlayOnCopy(game, moveToEvaluate);
      var greedyBot := new GreedyBot(gameCopy, rnd);
      var nextGreedyMove;
      ghost var replyOrder;
      nextGreedyMove, replyOrder := greedyBot.GetNextGreedyMove();
      ReplyDecidesScore(st, moveToEvaluate, replyOrder);
      var score: int;
      if nextGreedyMove.None? {
        score := moveToEvaluate.score;
      } else {
        score := moveToEvaluate.score - nextGreedyMove.value.score;
      }
      c := MoveScore(moveToEvaluate.row, moveToEvaluate.col, score);
    }
  }

  /** `Arrays.sort` with the comparator, then the first element, or none
      when the array is empty: the first maximum of the array as it was. */
  method SortAndTakeFirst(a: array<MoveScore>) returns (r: Option<MoveScore>)
    modifies a
    ensures a[..] == SortByScore(old(a[..]))
    ensures r == Greedy(old(a[..]))
  {
    ghost var before := a[..];
    Sort(a);
    if a.Length == 0 {
      return None;
    }
    SortHeadIsFirstMax(before);
    r := Some(a[0]);
  }

  /** `new ReversiGame(game)` followed by `placeDisk` at the move's position:
      a separate game in the state after the move; `game` is only read. */
  method PlayOnCopy(game: ReversiGame, m: MoveScore) returns (gameCopy: ReversiGame)
    requires game.Valid() && IsOnBoard(m.row, m.col)
    ensures fresh(gameCopy) && fresh(gameCopy.board)
    ensures gameCopy.Valid() && gameCopy.State() == AfterMove(game.State(), m)
  {
    gameCopy := new ReversiGame.Copy(game);
    var _ := gameCopy.PlaceDisk(m.row, m.col);
  }
}
