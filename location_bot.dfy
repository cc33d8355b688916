/** `TwoStepsWithLocationBot`: like the two-step bot, but a corner move earns
    a bonus, and the reply on the copy is chosen greedily with the same
    bonus. */
module LocationBots {
  import opened MoveScores
  import opened Board
  import opened Rules
  import opened Engine
  import opened Randomness
  import opened Comparator
  import opened GreedyBots
  import opened TwoStepsBots

  const CornerBonus: int := 3
  const EdgeBonus: int := 0

  /** `isOnEdge`: row or column 0 or 7; on the board, exactly the cells
      outside the inner 6x6 square. */
  function IsOnEdge(m: MoveScore): (b: bool)
    ensures IsOnBoard(m.row, m.col) ==> (b <==> !(0 < m.row < 7 && 0 < m.col < 7))
  {
    m.row == 0 || m.col == 0 || m.row == 7 || m.col == 7
  }

  /** `isInCorner`: one of the four corner cells, checked one by one; every
      corner is on an edge. */
  function IsInCorner(m: MoveScore): (b: bool)
    ensures b <==> (m.row == 0 || m.row == 7) && (m.col == 0 || m.col == 7)
    ensures b ==> IsOnEdge(m)
  {
    if m.row == 0 && m.col == 0 then true
    else if m.row == 0 && m.col == 7 then true
    else if m.row == 7 && m.col == 0 then true
    else if m.row == 7 && m.col == 7 then true
    else false
  }

  /** `addLocationBonusToMoveScores(moveScore)`: the same position, with the
      corner bonus added in a corner; an edge move gets a new record with
      the edge bonus, which is zero, so any move off the corners keeps its
      score. */
  function AddLocationBonus(m: MoveScore): (r: MoveScore)
    ensures r.row == m.row && r.col == m.col
    ensures IsInCorner(m) ==> r.score == m.score + 3
    ensures !IsInCorner(m) ==> r == m
  {
    if IsInCorner(m) then MoveScore(m.row, m.col, m.score + CornerBonus)
    else if IsOnEdge(m) then MoveScore(m.row, m.col, m.score + EdgeBonus)
    else m
  }

  /** The bonus applied to every move of a list, in order. */
  function BonusAll(moves: seq<MoveScore>): (r: seq<MoveScore>)
    ensures |r| == |moves|
  {
    if moves == [] then []
    else BonusAll(moves[..|moves| - 1]) + [AddLocationBonus(moves[|moves| - 1])]
  }

  lemma BonusAllSnoc(moves: seq<MoveScore>, i: int)
    requires 0 <= i < |moves|
    ensures BonusAll(moves[..i + 1]) == BonusAll(moves[..i]) + [AddLocationBonus(moves[i])]
  {
    assert moves[..i + 1][..i] == moves[..i];
  }

  /** Each entry is the bonus of the move at the same index. */
  lemma {:induction false} BonusAllAt(moves: seq<MoveScore>, j: int)
    requires 0 <= j < |moves|
    ensures BonusAll(moves)[j] == AddLocationBonus(moves[j])
  {
    if j < |moves| - 1 {
      BonusAllAt(moves[..|moves| - 1], j);
    }
  }

  /** The members of the bonus list are exactly the bonuses of the moves. */
  lemma BonusAllMembers(moves: seq<MoveScore>)
    ensures forall x :: x in BonusAll(moves) <==> exists m :: m in moves && x == AddLocationBonus(m)
  {
    forall x ensures x in BonusAll(moves) <==> exists m :: m in moves && x == AddLocationBonus(m) {
      if x in BonusAll(moves) {
        var j :| 0 <= j < |moves| && BonusAll(moves)[j] == x;
        BonusAllAt(moves, j);
        assert moves[j] in moves;
      }
      if exists m :: m in moves && x == AddLocationBonus(m) {
        var m :| m in moves && x == AddLocationBonus(m);
        var j :| 0 <= j < |moves| && moves[j] == m;
        BonusAllAt(moves, j);
      }
    }
  }

  /** The greedy choice with the bonus over any shuffle of a list of moves:
      none exactly when the list is empty, otherwise the bonus of one of its
      moves, scoring at least every move's bonus and as much as the best of
      them. */
  lemma BonusGreedyOverPermutation(order: seq<MoveScore>, moves: seq<MoveScore>)
    requires multiset(order) == multiset(moves)
    ensures Greedy(BonusAll(order)).None? <==> moves == []
    ensures Greedy(BonusAll(order)).Some? ==>
      exists m :: m in moves && Greedy(BonusAll(order)).value == AddLocationBonus(m)
    ensures Greedy(BonusAll(order)).Some? ==>
      forall m :: m in moves ==> AddLocationBonus(m).score <= Greedy(BonusAll(order)).value.score
    ensures Greedy(BonusAll(order)).Some? ==>
      Greedy(BonusAll(order)).value.score == MaxScore(BonusAll(moves))
  {
    SameMembers(order, moves);
    assert |order| == |moves| by {
      assert |multiset(order)| == |multiset(moves)|;
    }
    BonusAllMembers(order);
    BonusAllMembers(moves);
    if order != [] {
      var r := Greedy(BonusAll(order)).value;
      forall m | m in moves
        ensures AddLocationBonus(m).score <= r.score
      {
        assert AddLocationBonus(m) in BonusAll(order);
      }
      MaxScoreOf(BonusAll(moves), r);
    }
  }

  /** The bonus greedy choice over a shuffle of the current player's legal
      moves: none exactly when there are none, otherwise a legal move with
      its bonus, the best bonus score of all. */
  lemma BonusGreedyChoice(s: State, order: seq<MoveScore>)
    requires ValidState(s) && multiset(order) == multiset(CurrentMoves(s))
    ensures Greedy(BonusAll(order)).None? <==> CurrentMoves(s) == []
    ensures Greedy(BonusAll(order)).Some? ==>
      var r := Greedy(BonusAll(order)).value;
      && (exists m :: m in CurrentMoves(s) && r == AddLocationBonus(m))
      && r.score == MaxScore(BonusAll(CurrentMoves(s)))
      && Place(s, r.row, r.col).Some?
  {
    BonusGreedyOverPermutation(order, CurrentMoves(s));
    if order != [] {
      var m :| m in CurrentMoves(s) && Greedy(BonusAll(order)).value == AddLocationBonus(m);
      ListedMoveIsPlayable(s, m);
    }
  }

  /** `getTwoStepsMoveScore(move)`: the move's score with its bonus, less the
      best bonus score open to whoever is to move on the copy, or the bonus
      score alone when nobody can move there. */
  function LocationScore(s: State, m: MoveScore): (r: MoveScore)
    requires ValidState(s) && IsOnBoard(m.row, m.col)
  {
    var replies := CurrentMoves(AfterMove(s, m));
    var own := AddLocationBonus(m).score;
    MoveScore(m.row, m.col, if replies == [] then own else own - MaxScore(BonusAll(replies)))
  }

  /** The location score keeps the position and is the least, over the
      replies open on the copy, of the move's bonus score minus the reply's
      bonus score; with no reply it is the move's bonus score. */
  lemma LocationScoreIsWorstReply(s: State, m: MoveScore)
    requires ValidState(s) && IsOnBoard(m.row, m.col)
    ensures var r := LocationScore(s, m); var replies := CurrentMoves(AfterMove(s, m));
      var own := AddLocationBonus(m).score;
      && r.row == m.row && r.col == m.col
      && (replies == [] ==> r.score == own)
      && (forall x :: x in replies ==> r.score <= own - AddLocationBonus(x).score)
      && (replies != [] ==> exists x :: x in replies && r.score == own - AddLocationBonus(x).score)
  {
    var replies := CurrentMoves(AfterMove(s, m));
    BonusGreedyOverPermutation(replies, replies);
  }

  /** Whatever order the reply's shuffle leaves, the score it leads to is the
      location score. */
  lemma LocationReplyDecidesScore(s: State, m: MoveScore, replyOrder: seq<MoveScore>)
    requires ValidState(s) && IsOnBoard(m.row, m.col)
    requires multiset(replyOrder) == multiset(CurrentMoves(AfterMove(s, m)))
    ensures var reply := Greedy(BonusAll(replyOrder)); var own := AddLocationBonus(m).score;
      LocationScore(s, m) == MoveScore(m.row, m.col, if reply.None? then own else own - reply.value.score)
  {
    BonusGreedyOverPermutation(replyOrder, CurrentMoves(AfterMove(s, m)));
  }

  /** The candidates of `getTwoStepsPreferLocationMoveScores`, one per move
      in the same order. */
  function LocationScores(s: State, moves: seq<MoveScore>): (r: seq<MoveScore>)
    requires ValidState(s) && forall i :: 0 <= i < |moves| ==> IsOnBoard(moves[i].row, moves[i].col)
    ensures |r| == |moves|
  {
    if moves == [] then []
    else LocationScores(s, moves[..|moves| - 1]) + [LocationScore(s, moves[|moves| - 1])]
  }

  lemma LocationScoresSnoc(s: State, moves: seq<MoveScore>, i: int)
    requires ValidState(s) && forall k :: 0 <= k < |moves| ==> IsOnBoard(moves[k].row, moves[k].col)
    requires 0 <= i < |moves|
    ensures LocationScores(s, moves[..i + 1]) == LocationScores(s, moves[..i]) + [LocationScore(s, moves[i])]
  {
    assert moves[..i + 1][..i] == moves[..i];
  }

  /** Each candidate is the location score of the move at the same index. */
  lemma {:induction false} LocationScoresAt(s: State, moves: seq<MoveScore>, j: int)
    requires ValidState(s) && forall i :: 0 <= i < |moves| ==> IsOnBoard(moves[i].row, moves[i].col)
    requires 0 <= j < |moves|
    ensures LocationScores(s, moves)[j] == LocationScore(s, moves[j])
  {
    if j < |moves| - 1 {
      LocationScoresAt(s, moves[..|moves| - 1], j);
    }
  }

  /** The candidates for the current player's legal moves. */
  function LocationCandidates(s: State): (r: seq<MoveScore>)
    requires ValidState(s)
    ensures |r| == |CurrentMoves(s)|
  {
    ListedMovesOnBoard(s);
    LocationScores(s, CurrentMoves(s))
  }

  /** Every legal move's location score is among the candidates. */
  lemma LocationCandidateOfMove(s: State, m: MoveScore)
    requires ValidState(s) && m in CurrentMoves(s)
    ensures IsOnBoard(m.row, m.col) && LocationScore(s, m) in LocationCandidates(s)
  {
    var moves := CurrentMoves(s);
    ListedMovesOnBoard(s);
    var j :| 0 <= j < |moves| && moves[j] == m;
    LocationScoresAt(s, moves, j);
    assert LocationCandidates(s)[j] == LocationScore(s, m);
  }

  /** Every candidate is the location score of a legal move, at that move's
      position, which `placeDisk` accepts. */
  lemma MoveOfLocationCandidate(s: State, x: MoveScore)
    requires ValidState(s) && x in LocationCandidates(s)
    ensures exists m :: m in CurrentMoves(s) && x == LocationScore(s, m)
    ensures Place(s, x.row, x.col).Some?
  {
    var moves := CurrentMoves(s);
    ListedMovesOnBoard(s);
    var i :| 0 <= i < |LocationCandidates(s)| && LocationCandidates(s)[i] == x;
    LocationScoresAt(s, moves, i);
    assert moves[i] in moves;
    ListedMoveIsPlayable(s, moves[i]);
  }

  /** The choice over any shuffle of the candidates: none exactly when there
      is no legal move, otherwise the location score of some legal move (so
      its position is legal) that is at least every legal move's. */
  lemma LocationChoice(s: State, order: seq<MoveScore>)
    requires ValidState(s)
    requires multiset(order) == multiset(LocationCandidates(s))
    ensures Greedy(order).None? <==> CurrentMoves(s) == []
    ensures Greedy(order).Some? ==>
      exists m :: m in CurrentMoves(s) && Greedy(order).value == LocationScore(s, m)
    ensures Greedy(order).Some? ==>
      forall m :: m in CurrentMoves(s) ==> LocationScore(s, m).score <= Greedy(order).value.score
    ensures Greedy(order).Some? ==> Place(s, Greedy(order).value.row, Greedy(order).value.col).Some?
  {
    SameMembers(order, LocationCandidates(s));
    assert |order| == |LocationCandidates(s)| by {
      assert |multiset(order)| == |multiset(LocationCandidates(s))|;
    }
    if order != [] {
      MoveOfLocationCandidate(s, Greedy(order).value);
      forall m | m in CurrentMoves(s)
        ensures LocationScore(s, m).score <= Greedy(order).value.score
      {
        LocationCandidateOfMove(s, m);
      }
    }
  }

  class TwoStepsWithLocationBot {
    const game: ReversiGame
    const rnd: Random

    constructor (game: ReversiGame, rnd: Random)
      ensures this.game == game && this.rnd == rnd
    {
      this.game := game;
      this.rnd := rnd;
    }

    /** `getNextMove()`: the two-step move with the location bonus, which is
        a legal answer. */
    method GetNextMove() returns (r: Option<MoveScore>)
      requires game.Valid()
      modifies rnd
      ensures AnswersLegally(old(game.State()), r)
    {
      ghost var st := game.State();
      ghost var order;
      r, order := GetTwoStepsPreferLocationMove();
      LocationChoice(st, order);
    }

    /** `getTwoStepsPreferLocationMove()`: with no candidate the answer is
        none and nothing is shuffled; otherwise the ghost `order` is the
        shuffled list of candidates and the answer is the head of its stable
        descending sort (`LocationChoice` says what that is). */
    method GetTwoStepsPreferLocationMove() returns (r: Option<MoveScore>, ghost order: seq<MoveScore>)
      requires game.Valid()
      modifies rnd
      ensures multiset(order) == multiset(LocationCandidates(old(game.State())))
      ensures r == Greedy(order)
    {
      var moveScores := CandidateScores();
      r, order := ShuffleAndTakeFirst(moveScores, rnd);
    }

    /** The first two steps of `getTwoStepsPreferLocationMove()`: the legal
        moves, then a new array of their candidates. */
    method CandidateScores() returns (moveScores: array<MoveScore>)
      requires game.Valid()
      modifies rnd
      ensures fresh(moveScores)
      ensures moveScores[..] == LocationCandidates(old(game.State()))
    {
      ghost var st := game.State();
      var moves := game.GetCurrentPossibleMoves();
      ListedMovesOnBoard(st);
      moveScores := GetTwoStepsPreferLocationMoveScores(moves);
    }

    /** `getTwoStepsMoveScore(move)`: play the move on a copy, let a bot of
        the same kind choose its bonus greedy reply there, and subtract. */
    method GetTwoStepsMoveScore(move: MoveScore) returns (c: MoveScore)
      requires game.Valid() && IsOnBoard(move.row, move.col)
      modifies rnd
      ensures c == LocationScore(old(game.State()), move)
    {
      ghost var st := game.State();
      var gameCopy := PlayOnCopy(game, move);
      var nextMoveGreedyBot := new TwoStepsWithLocationBot(gameCopy, rnd);
      var nextMove;
      ghost var replyOrder;
      nextMove, replyOrder := nextMoveGreedyBot.GetNextGreedyMoveWithLocationBonus();
      LocationReplyDecidesScore(st, move, replyOrder);
      var moveScore := AddLocationBonus(move).score;
      var totalMoveScore: int;
      if nextMove.None? {
        totalMoveScore := moveScore;
      } else {
        totalMoveScore := moveScore - nextMove.value.score;
      }
      c := MoveScore(move.row, move.col, totalMoveScore);
    }

    /** `getNextGreedyMoveWithLocationBonus()`: the legal moves are shuffled
        (even when there are none), and the answer is the head of the stable
        sort of their bonuses (`BonusGreedyChoice` says what that is). */
    method GetNextGreedyMoveWithLocationBonus() returns (r: Option<MoveScore>, ghost order: seq<MoveScore>)
      requires game.Valid()
      modifies rnd
      ensures multiset(order) == multiset(CurrentMoves(old(game.State())))
      ensures r == Greedy(BonusAll(order))
    {
      var possibleMoves := game.GetCurrentPossibleMoves();
      Shuffle(possibleMoves, rnd);
      order := possibleMoves[..];
      r := BestWithBonus(possibleMoves);
    }

    /** `getTwoStepsPreferLocationMoveScores`: a new array holding each
        move's candidate. */
    method GetTwoStepsPreferLocationMoveScores(moves: array<MoveScore>) returns (scores: array<MoveScore>)
      requires game.Valid()
      requires forall i :: 0 <= i < moves.Length ==> IsOnBoard(moves[i].row, moves[i].col)
      modifies rnd
      ensures fresh(scores)
      ensures scores[..] == LocationScores(old(game.State()), moves[..])
    {
      ghost var st := game.State();
      scores := new MoveScore[moves.Length](_ => MoveScore(0, 0, 0));
      for i := 0 to moves.Length
        invariant unchanged(game) && unchanged(game.board)
        invariant scores[..i] == LocationScores(st, moves[..i])
      {
        game.StateKept();
        scores[i] := GetTwoStepsMoveScore(moves[i]);
        LocationScoresSnoc(st, moves[..], i);
        PrefixSnoc(scores[..], i);
      }
      assert moves[..moves.Length] == moves[..] && scores[..moves.Length] == scores[..];
    }
  }

  /** `addLocationBonusToMoveScores(moves)`: a new array holding the bonus
      of each move, in order. */
  method AddLocationBonusToMoveScores(moves: array<MoveScore>) returns (scores: array<MoveScore>)
    ensures fresh(scores)
    ensures scores[..] == BonusAll(moves[..])
  {
    scores := new MoveScore[moves.Length](_ => MoveScore(0, 0, 0));
    for i := 0 to moves.Length
      invariant scores[..i] == BonusAll(moves[..i])
    {
      scores[i] := AddLocationBonus(moves[i]);
      BonusAllSnoc(moves[..], i);
      assert scores[..i + 1] == scores[..i] + [scores[i]];
    }
    assert moves[..moves.Length] == moves[..] && scores[..moves.Length] == scores[..];
  }

  /** The choice among the candidates: none, without shuffling, when there
      are none; otherwise `Collections.shuffle`, then `Arrays.sort` with the
      comparator and the first element, which is the first maximum of the
      shuffled order. */
  method ShuffleAndTakeFirst(a: array<MoveScore>, rnd: Random) returns (r: Option<MoveScore>, ghost order: seq<MoveScore>)
    modifies a, rnd
    ensures multiset(order) == multiset(old(a[..]))
    ensures r == Greedy(order)
    ensures a.Length == 0 ==> unchanged(rnd)
  {
    if a.Length == 0 {
      return None, [];
    }
    Shuffle(a, rnd);
    order := a[..];
    r := SortAndTakeFirst(a);
  }

  /** The rest of `getNextGreedyMoveWithLocationBonus` on the shuffled
      moves: none when there are none, otherwise the head of the stable
      sort of their bonuses. */
  method BestWithBonus(possibleMoves: array<MoveScore>) returns (r: Option<MoveScore>)
    ensures r == Greedy(BonusAll(possibleMoves[..]))
  {
    if possibleMoves.Length == 0 {
      return None;
    }
    var greedyWithLocationMoveScores := AddLocationBonusToMoveScores(possibleMoves);
    r := SortAndTakeFirst(greedyWithLocationMoveScores);
  }
}
