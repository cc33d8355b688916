/** `GreedyBot`: shuffle the current player's legal moves, then take the
    first one with the largest flip count. */
module GreedyBots {
  import opened MoveScores
  import opened Board
  import opened Rules
  import opened Engine
  import opened Randomness

  /** The scan's choice over a list in the order it is visited: `None` on an
      empty list, otherwise the first move of maximum score. */
  function Greedy(order: seq<MoveScore>): (r: Option<MoveScore>)
    ensures r.None? <==> order == []
    ensures r.Some? ==> r.value in order && forall m :: m in order ==> m.score <= r.value.score
    ensures r.Some? ==> exists k :: IsFirstMax(order, k) && r.value == order[k]
  {
    if order == [] then None else Some(order[FirstMaxIndex(order)])
  }

  /** Two lists with the same multiset have the same members. */
  lemma SameMembers(order: seq<MoveScore>, moves: seq<MoveScore>)
    requires multiset(order) == multiset(moves)
    ensures forall m :: m in order <==> m in moves
  {
    forall m ensures m in order <==> m in moves {
      assert m in order <==> m in multiset(order);
    }
  }

  /** Greedy over any permutation of a list of moves: none exactly when the
      list is empty, otherwise one of its moves with the maximum score; on a
      single move, that move. */
  lemma GreedyOverPermutation(order: seq<MoveScore>, moves: seq<MoveScore>)
    requires multiset(order) == multiset(moves)
    ensures Greedy(order).None? <==> moves == []
    ensures Greedy(order).Some? ==> Greedy(order).value in moves
    ensures Greedy(order).Some? ==> Greedy(order).value.score == MaxScore(moves)
    ensures |moves| == 1 ==> Greedy(order) == Some(moves[0])
  {
    SameMembers(order, moves);
    assert |order| == |moves| by {
      assert |multiset(order)| == |multiset(moves)|;
    }
    if moves != [] {
      var r := Greedy(order).value;
      MaxScoreOf(moves, r);
    }
  }

  /** The greedy choice over a shuffle of the current player's legal moves:
      none exactly when there are none, otherwise a legal move, unchanged,
      with the largest flip count, which `placeDisk` accepts. */
  lemma GreedyChoice(s: State, order: seq<MoveScore>)
    requires ValidState(s) && multiset(order) == multiset(CurrentMoves(s))
    ensures Greedy(order).None? <==> CurrentMoves(s) == []
    ensures Greedy(order).Some? ==>
      var m := Greedy(order).value;
      && m in CurrentMoves(s) && m.score == MaxScore(CurrentMoves(s))
      && m.score > 0 && IsOnBoard(m.row, m.col) && Place(s, m.row, m.col).Some?
    ensures |CurrentMoves(s)| == 1 ==> Greedy(order) == Some(CurrentMoves(s)[0])
  {
    GreedyOverPermutation(order, CurrentMoves(s));
    if order != [] {
      ListedMoveIsPlayable(s, Greedy(order).value);
    }
  }

  class GreedyBot {
    const game: ReversiGame
    const rnd: Random

    constructor (game: ReversiGame, rnd: Random)
      ensures this.game == game && this.rnd == rnd
    {
      this.game := game;
      this.rnd := rnd;
    }

    /** `getNextMove()`: the greedy move, which is a legal answer. */
    method GetNextMove() returns (r: Option<MoveScore>)
      requires game.Valid()
      modifies rnd
      ensures AnswersLegally(old(game.State()), r)
    {
      ghost var st := game.State();
      ghost var order;
      r, order := GetNextGreedyMove();
      GreedyChoice(st, order);
    }

    /** `getNextGreedyMove`. The ghost `order` is the shuffled list of the
        current player's legal moves, and the answer is its first maximum
        (`GreedyChoice` says what that is). The game itself is only read. */
    method GetNextGreedyMove() returns (r: Option<MoveScore>, ghost order: seq<MoveScore>)
      requires game.Valid()
      modifies rnd
      ensures multiset(order) == multiset(CurrentMoves(old(game.State())))
      ensures r == Greedy(order)
    {
      var possibleMoves := game.GetCurrentPossibleMoves();
      Shuffle(possibleMoves, rnd);
      order := possibleMoves[..];
      if possibleMoves.Length == 0 {
        return None, order;
      }
      var bestMove := BestOf(possibleMoves);
      r := Some(bestMove);
    }
  }

  /** The scan of `getNextGreedyMove` over the shuffled, non-empty array: the
      best so far is replaced only by a strictly larger score. */
  method BestOf(a: array<MoveScore>) returns (best: MoveScore)
    requires a.Length > 0
    ensures Some(best) == Greedy(a[..])
  {
    best := a[0];
    ghost var k := 0;
    for i := 1 to a.Length
      invariant 0 <= k < i && best == a[k]
      invariant IsFirstMax(a[..i], k)
    {
      if a[i].score > best.score {
        best := a[i];
        k := i;
      }
    }
    assert a[..a.Length] == a[..];
    FirstMaxIsMax(a[..], k);
  }
}
