/** `ReversiTournament` without its reflection and console output: the
    round-robin schedule, the games of a match between two bots, and the
    tallies of wins. */
module Tournament {
  import opened MoveScores
  import opened Board
  import opened Rules
  import opened Engine
  import opened Randomness
  import opened GreedyBots
  import opened TwoStepsBots
  import opened LocationBots
  import opened RandomBots

  /** `NUM_OF_GAMES`: the games of one match. */
  const NumOfGames: int := 20

  /** The bot classes the tournament loads (the student template is
      skipped). */
  datatype BotKind = GreedyPlayer | TwoStepsPlayer | LocationPlayer | RandomPlayer

  /** A pairing of two contestants, by their positions in the list. */
  datatype Match = Match(contestant1: int, contestant2: int)

  // ---------------------------------------------------------------------
  // The schedule of `createMatches`
  // ---------------------------------------------------------------------

  /** Row `i` of the schedule, up to `j`: contestant `i` against `i + 1`,
      ..., `j - 1`. */
  function Row(i: int, j: int): (r: seq<Match>)
    ensures |r| == if j > i + 1 then j - i - 1 else 0
    decreases j - i
  {
    if j <= i + 1 then [] else Row(i, j - 1) + [Match(i, j - 1)]
  }

  /** The first `k` rows of the schedule of `n` contestants. */
  function Rows(k: nat, n: int): seq<Match>
  {
    if k == 0 then [] else Rows(k - 1, n) + Row(k - 1, n)
  }

  /** Every pairing `createMatches` makes for `n` contestants, in order. */
  function Schedule(n: nat): seq<Match>
  {
    Rows(n, n)
  }

  lemma {:induction false} RowMembers(i: int, j: int)
    ensures forall m :: m in Row(i, j) <==> m.contestant1 == i && i < m.contestant2 < j
    decreases j - i
  {
    if j > i + 1 {
      RowMembers(i, j - 1);
    }
  }

  lemma {:induction false} RowsMembers(k: nat, n: int)
    ensures forall m :: m in Rows(k, n) <==> 0 <= m.contestant1 < k && m.contestant1 < m.contestant2 < n
  {
    if k > 0 {
      RowsMembers(k - 1, n);
      RowMembers(k - 1, n);
      var a, b := Rows(k - 1, n), Row(k - 1, n);
      assert Rows(k, n) == a + b;
      forall m: Match
        ensures m in a + b <==> 0 <= m.contestant1 < k && m.contestant1 < m.contestant2 < n
      {
        assert m in a + b <==> m in a || m in b;
      }
    }
  }

  /** The schedule pairs exactly the contestants `i < j`: nobody meets
      themselves, and every two contestants meet. */
  lemma ScheduleMembers(n: nat)
    ensures forall m :: m in Schedule(n) <==> 0 <= m.contestant1 < m.contestant2 < n
  {
    RowsMembers(n, n);
  }

  /** Lexicographic order on pairings. */
  predicate Precedes(a: Match, b: Match)
  {
    a.contestant1 < b.contestant1 || (a.contestant1 == b.contestant1 && a.contestant2 < b.contestant2)
  }

  ghost predicate StrictlyOrdered(s: seq<Match>)
  {
    forall x, y :: 0 <= x < y < |s| ==> Precedes(s[x], s[y])
  }

  lemma OrderedAppend(a: seq<Match>, b: seq<Match>)
    requires StrictlyOrdered(a) && StrictlyOrdered(b)
    requires forall u, v :: u in a && v in b ==> Precedes(u, v)
    ensures StrictlyOrdered(a + b)
  {
    var s := a + b;
    forall x, y | 0 <= x < y < |s|
      ensures Precedes(s[x], s[y])
    {
      if y < |a| {
        assert s[x] == a[x] && s[y] == a[y];
      } else if x < |a| {
        assert s[x] == a[x] && s[y] == b[y - |a|];
        assert a[x] in a && b[y - |a|] in b;
      } else {
        assert s[x] == b[x - |a|] && s[y] == b[y - |a|];
      }
    }
  }

  lemma {:induction false} RowOrdered(i: int, j: int)
    ensures StrictlyOrdered(Row(i, j))
    decreases j - i
  {
    if j > i + 1 {
      RowOrdered(i, j - 1);
      RowMembers(i, j - 1);
      OrderedAppend(Row(i, j - 1), [Match(i, j - 1)]);
    }
  }

  lemma {:induction false} RowsOrdered(k: nat, n: int)
    ensures StrictlyOrdered(Rows(k, n))
  {
    if k > 0 {
      RowsOrdered(k - 1, n);
      RowOrdered(k - 1, n);
      RowsMembers(k - 1, n);
      RowMembers(k - 1, n);
      OrderedAppend(Rows(k - 1, n), Row(k - 1, n));
    }
  }

  /** The schedule is in lexicographic order, so no pairing comes twice. */
  lemma ScheduleOrdered(n: nat)
    ensures StrictlyOrdered(Schedule(n))
    ensures forall x, y :: 0 <= x < y < |Schedule(n)| ==> Schedule(n)[x] != Schedule(n)[y]
  {
    RowsOrdered(n, n);
  }

  lemma {:induction false} RowsLength(k: nat, n: int)
    requires k <= n
    ensures 2 * |Rows(k, n)| == k * (2 * n - k - 1)
  {
    if k > 0 {
      RowsLength(k - 1, n);
      assert |Row(k - 1, n)| == n - k;
      assert (k - 1) * (2 * n - k) + 2 * (n - k) == k * (2 * n - k - 1);
    }
  }

  /** `createMatches` on `n` contestants makes n(n-1)/2 pairings. */
  lemma ScheduleLength(n: nat)
    ensures 2 * |Schedule(n)| == n * (n - 1)
  {
    RowsLength(n, n);
  }

  class TournamentContestant {
    const bot: BotKind
    var score: int

    constructor (bot: BotKind)
      ensures this.bot == bot && score == 0
    {
      this.bot := bot;
      score := 0;
    }
  }

  /** `createMatches`: the nested loops append contestant `i` against every
      later contestant `j`, in order. */
  method CreateMatches(contestants: seq<TournamentContestant>) returns (matches: seq<Match>)
    ensures matches == Schedule(|contestants|)
  {
    matches := [];
    for i := 0 to |contestants|
      invariant matches == Rows(i, |contestants|)
    {
      for j := i + 1 to |contestants|
        invariant matches == Rows(i, |contestants|) + Row(i, j)
      {
        matches := matches + [Match(i, j)];
      }
    }
  }

  // ---------------------------------------------------------------------
  // The round-robin tally
  // ---------------------------------------------------------------------

  /** The point contestant `k` gets from one match with difference `diff`:
      the first contestant scores on a positive difference, the second on a
      negative one, nobody on zero. */
  function Award(m: Match, diff: int, k: int): (r: int)
    ensures 0 <= r <= 1
  {
    if diff > 0 && k == m.contestant1 then 1
    else if diff < 0 && k == m.contestant2 then 1
    else 0
  }

  /** A decided match gives exactly one point, to one of its two players; a
      drawn one gives none. */
  lemma AwardOneMatch(m: Match, diff: int, k: int)
    requires m.contestant1 != m.contestant2
    ensures Award(m, diff, m.contestant1) + Award(m, diff, m.contestant2) == if diff == 0 then 0 else 1
    ensures k != m.contestant1 && k != m.contestant2 ==> Award(m, diff, k) == 0
  {
  }

  /** The points contestant `k` collects over a list of matches with their
      differences. */
  function Points(ms: seq<Match>, diffs: seq<int>, k: int): (r: int)
    requires |diffs| == |ms|
    ensures 0 <= r <= |ms|
  {
    if ms == [] then 0
    else Points(ms[..|ms| - 1], diffs[..|diffs| - 1], k) + Award(ms[|ms| - 1], diffs[|diffs| - 1], k)
  }

  lemma PointsSnoc(ms: seq<Match>, diffs: seq<int>, m: Match, d: int)
    requires |diffs| == |ms|
    ensures forall k :: Points(ms + [m], diffs + [d], k) == Points(ms, diffs, k) + Award(m, d, k)
  {
    assert (ms + [m])[..|ms|] == ms && (diffs + [d])[..|diffs|] == diffs;
  }

  /** The number of matches contestant `k` plays in a list. */
  function Plays(ms: seq<Match>, k: int): (r: nat)
    ensures r <= |ms|
  {
    if ms == [] then 0
    else Plays(ms[..|ms| - 1], k) + (if k == ms[|ms| - 1].contestant1 || k == ms[|ms| - 1].contestant2 then 1 else 0)
  }

  lemma {:induction false} PointsAtMostPlays(ms: seq<Match>, diffs: seq<int>, k: int)
    requires |diffs| == |ms|
    ensures Points(ms, diffs, k) <= Plays(ms, k)
  {
    if ms != [] {
      PointsAtMostPlays(ms[..|ms| - 1], diffs[..|diffs| - 1], k);
    }
  }

  lemma {:induction false} PlaysAppend(a: seq<Match>, b: seq<Match>, k: int)
    ensures Plays(a + b, k) == Plays(a, k) + Plays(b, k)
  {
    if b == [] {
      assert a + b == a;
    } else {
      assert (a + b)[..|a + b| - 1] == a + b[..|b| - 1];
      PlaysAppend(a, b[..|b| - 1], k);
    }
  }

  /** The count of `PlaysRows` one row on: the rows before give `n - 1` to
      the contestants they started and `i - 1` to the rest, row `i - 1`
      gives its own contestant `n - i` and every later one 1. */
  lemma PlaysRowsStep(i: int, n: int, k: int, a: int, b: int, c: int)
    requires 0 < i <= n && 0 <= k < n
    requires a == (if k < i - 1 then n - 1 else i - 1)
    requires b == (if k == i - 1 then (if n > i then n - i else 0) else if i - 1 < k < n then 1 else 0)
    requires c == a + b
    ensures c == (if k < i then n - 1 else i)
  {}

  /** `PlaysAppend` for a list already known to be a concatenation. */
  lemma PlaysConcat(a: seq<Match>, b: seq<Match>, c: seq<Match>, k: int)
    requires c == a + b
    ensures Plays(c, k) == Plays(a, k) + Plays(b, k)
  {
    PlaysAppend(a, b, k);
  }

  lemma {:induction false} PlaysRow(i: int, j: int, k: int)
    ensures Plays(Row(i, j), k) ==
      (if k == i then (if j > i + 1 then j - i - 1 else 0) else if i < k < j then 1 else 0)
    decreases j - i
  {
    if j > i + 1 {
      PlaysRow(i, j - 1, k);
      assert Row(i, j)[..|Row(i, j)| - 1] == Row(i, j - 1);
    }
  }

  lemma {:induction false} PlaysRows(i: nat, n: int, k: int)
    requires i <= n && 0 <= k < n
    ensures Plays(Rows(i, n), k) == (if k < i then n - 1 else i)
  {
    if i > 0 {
      PlaysRows(i - 1, n, k);
      PlaysConcat(Rows(i - 1, n), Row(i - 1, n), Rows(i, n), k);
      PlaysRow(i - 1, n, k);
      PlaysRowsStep(i, n, k, Plays(Rows(i - 1, n), k), Plays(Row(i - 1, n), k), Plays(Rows(i, n), k));
    }
  }

  /** Each of `n` contestants plays `n - 1` matches of the schedule, so
      wins at most that many points in the round robin. */
  lemma RoundRobinPoints(n: nat, diffs: seq<int>, k: int)
    requires 0 <= k < n && |diffs| == |Schedule(n)|
    ensures Plays(Schedule(n), k) == n - 1
    ensures Points(Schedule(n), diffs, k) <= n - 1
  {
    PlaysRows(n, n, k);
    PointsAtMostPlays(Schedule(n), diffs, k);
  }

  // ---------------------------------------------------------------------
  // The tally of one match
  // ---------------------------------------------------------------------

  /** The tally `matchBots` prints: the games won by each contestant, and
      the ties. */
  datatype Score = Score(wins1: int, wins2: int, ties: int)

  /** `c1IsPlayerOne`: contestant 1 plays as player one in the even games. */
  function C1IsPlayerOne(i: int): bool
  {
    i % 2 == 0
  }

  /** The tally over the winners of the games played so far, `winners[i]`
      being `getWinner()` of game `i`: a win of player one counts for
      whoever sat there, likewise for player two, anything else is a tie.
      Each game counts once, so the three numbers add up to the games
      played. */
  function Tally(winners: seq<int>): (t: Score)
    ensures 0 <= t.wins1 && 0 <= t.wins2 && 0 <= t.ties
    ensures t.wins1 + t.wins2 + t.ties == |winners|
  {
    if winners == [] then Score(0, 0, 0)
    else
      var t := Tally(winners[..|winners| - 1]);
      var i := |winners| - 1;
      if winners[i] == PlayerOne then
        (if C1IsPlayerOne(i) then t.(wins1 := t.wins1 + 1) else t.(wins2 := t.wins2 + 1))
      else if winners[i] == PlayerTwo then
        (if C1IsPlayerOne(i) then t.(wins2 := t.wins2 + 1) else t.(wins1 := t.wins1 + 1))
      else t.(ties := t.ties + 1)
  }

  /** Swapping seats every game cancels any advantage of the first seat: if
      player one won every game, each contestant won half of them (the first
      one the extra game of an odd count). */
  lemma {:induction false} SeatAdvantageCancels(winners: seq<int>)
    requires forall i :: 0 <= i < |winners| ==> winners[i] == PlayerOne
    ensures Tally(winners).wins1 == (|winners| + 1) / 2
    ensures Tally(winners).wins2 == |winners| / 2
  {
    if winners != [] {
      SeatAdvantageCancels(winners[..|winners| - 1]);
    }
  }

  // ---------------------------------------------------------------------
  // Playing games
  // ---------------------------------------------------------------------

  /** The state reached from a fresh game by `placeDisk` at each position in
      turn, provided every placement succeeds. */
  function Replay(moves: seq<(int, int)>): (r: Option<State>)
    ensures r.Some? ==> WellFormed(r.value.grid)
  {
    if moves == [] then Some(Initial())
    else
      var prev := Replay(moves[..|moves| - 1]);
      var last := moves[|moves| - 1];
      if prev.None? || !IsOnBoard(last.0, last.1) then None else Place(prev.value, last.0, last.1)
  }

  /** The fresh game has a move for player one: (2, 4) flips (3, 4). */
  lemma InitialHasMove()
    ensures MoveFlips(InitialGrid(), PlayerOne, 2, 4) > 0
    ensures CurrentMoves(Initial()) != []
  {
    var g := InitialGrid();
    FlipsComplete(g, PlayerOne, 2, 4, 1, 0, 1);
    assert SumFlips(g, PlayerOne, 2, 4, 8) >= FlipsInDirection(g, PlayerOne, 2, 4, DirRow(7), DirCol(7));
    HasMoveIff(g, PlayerOne, 2, 4);
  }

  /** A state in which a bot is never asked for a move it cannot give: the
      state is valid, and the player to move has a legal move unless the game
      is over. */
  ghost predicate Playable(s: State)
  {
    ValidState(s) && (CurrentMoves(s) == [] ==> GameOver(s.grid))
  }

  /** The fresh game is playable. */
  lemma InitialPlayable()
    ensures Playable(Initial())
  {
    InitialValid();
    InitialHasMove();
  }

  /** The disks of the fresh game are all in range. */
  lemma InitialValid()
    ensures ValidState(Initial())
  {
    var g := InitialGrid();
    forall i, j | 0 <= i < Size && 0 <= j < Size
      ensures 0 <= g[i][j] <= 2
    {
      assert g[i][j] == InitialCell(i, j);
    }
  }

  /** A successful placement leads to a playable state. */
  lemma PlacePlayable(s: State, row: int, col: int)
    requires ValidState(s) && IsOnBoard(row, col) && Place(s, row, col).Some?
    ensures Playable(Place(s, row, col).value)
  {
    PlaceValid(s, row, col);
    PlaceTurn(s, row, col);
  }

  /** A successful replay of a non-empty list is a successful replay of all
      but the last position followed by a placement at the last one. */
  lemma ReplayStep(moves: seq<(int, int)>)
    requires moves != [] && Replay(moves).Some?
    ensures Replay(moves[..|moves| - 1]).Some?
    ensures IsOnBoard(moves[|moves| - 1].0, moves[|moves| - 1].1)
    ensures Replay(moves) == Place(Replay(moves[..|moves| - 1]).value, moves[|moves| - 1].0, moves[|moves| - 1].1)
  {
  }

  /** Every state reached from a fresh game by successful placements is
      playable. */
  lemma {:induction false} ReplayPlayable(moves: seq<(int, int)>)
    requires Replay(moves).Some?
    ensures Playable(Replay(moves).value)
  {
    if moves == [] {
      InitialPlayable();
    } else {
      var prefix := moves[..|moves| - 1];
      var last := moves[|moves| - 1];
      ReplayStep(moves);
      ReplayPlayable(prefix);
      PlacePlayable(Replay(prefix).value, last.0, last.1);
    }
  }

  /** One more successful placement extends the replay. */
  lemma ReplaySnoc(moves: seq<(int, int)>, s: State, row: int, col: int)
    requires Replay(moves) == Some(s) && IsOnBoard(row, col)
    ensures Replay(moves + [(row, col)]) == Place(s, row, col)
  {
    assert (moves + [(row, col)])[..|moves|] == moves;
  }

  /** `currentBot.getNextMove()` for a bot of the given kind built on
      `game`: a legal answer whatever the kind. */
  method NextMove(kind: BotKind, game: ReversiGame, rnd: Random) returns (move: Option<MoveScore>)
    requires game.Valid()
    modifies rnd
    ensures AnswersLegally(old(game.State()), move)
  {
    match kind
    case GreedyPlayer =>
      var bot := new GreedyBot(game, rnd);
      move := bot.GetNextMove();
    case TwoStepsPlayer =>
      var bot := new TwoStepsBot(game, rnd);
      move := bot.GetNextMove();
    case LocationPlayer =>
      var bot := new TwoStepsWithLocationBot(game, rnd);
      move := bot.GetNextMove();
    case RandomPlayer =>
      var bot := new RandomPlayerBot(game, rnd);
      move := bot.GetNextMove();
  }

  /** The bot in the seat of `player`: `botP1` for player one, `botP2`
      otherwise. */
  function SeatOf(player: int, botP1: BotKind, botP2: BotKind): BotKind
  {
    if player == PlayerOne then botP1 else botP2
  }

  /** `askers[k]` is the bot that answered move `k` of `played`: the bot in
      the seat of the player to move after the first `k` moves. */
  ghost predicate Seated(played: seq<(int, int)>, askers: seq<BotKind>, botP1: BotKind, botP2: BotKind)
  {
    && |askers| == |played|
    && forall k :: 0 <= k < |played| ==>
      Replay(played[..k]).Some? && askers[k] == SeatOf(Replay(played[..k]).value.player, botP1, botP2)
  }

  /** A move answered by the bot in the seat of the player to move extends
      the seating. */
  lemma SeatedSnoc(played: seq<(int, int)>, askers: seq<BotKind>, botP1: BotKind, botP2: BotKind,
                   move: (int, int), asker: BotKind)
    requires Seated(played, askers, botP1, botP2) && Replay(played).Some?
    requires asker == SeatOf(Replay(played).value.player, botP1, botP2)
    ensures Seated(played + [move], askers + [asker], botP1, botP2)
  {
    var played', askers' := played + [move], askers + [asker];
    forall k | 0 <= k < |played'|
      ensures Replay(played'[..k]).Some? && askers'[k] == SeatOf(Replay(played'[..k]).value.player, botP1, botP2)
    {
      if k < |played| {
        assert played'[..k] == played[..k];
      } else {
        assert played'[..k] == played;
      }
    }
  }

  /** One game of `matchBots`: a fresh game, and while it is not over the
      bot of the player to move answers and its disk is placed. The null-move
      fault cannot happen, every placement succeeds, and the game ends; the
      ghost `played` lists the positions played, `askers` the bot that
      answered each of them, and the result is the winner of the final
      board, never -1. */
  method PlayGame(botP1: BotKind, botP2: BotKind, rnd: Random)
    returns (winner: int, ghost played: seq<(int, int)>, ghost askers: seq<BotKind>)
    modifies rnd
    ensures Replay(played).Some? && GameOver(Replay(played).value.grid)
    ensures winner == Winner(Replay(played).value.grid) && 0 <= winner <= 2
    ensures Seated(played, askers, botP1, botP2)
  {
    var game := new ReversiGame();
    InitialPlayable();
    played, askers := RunGame(game, botP1, botP2, rnd, [], []);
    winner := game.GetWinner();
  }

  /** The game loop of `matchBots`. */
  method RunGame(game: ReversiGame, botP1: BotKind, botP2: BotKind, rnd: Random,
                 ghost start: seq<(int, int)>, ghost startAskers: seq<BotKind>)
    returns (ghost played: seq<(int, int)>, ghost askers: seq<BotKind>)
    requires game.Valid() && Replay(start) == Some(game.State()) && Playable(game.State())
    requires Seated(start, startAskers, botP1, botP2)
    modifies game, game.board, rnd
    ensures game.Valid() && game.board == old(game.board)
    ensures Replay(played) == Some(game.State()) && GameOver(game.Cells())
    ensures Seated(played, askers, botP1, botP2)
  {
    played, askers := start, startAskers;
    var over := game.IsGameOver();
    DisksAtMostCells(game.Cells());
    while !over
      invariant game.Valid() && game.board == old(game.board)
      invariant Replay(played) == Some(game.State()) && Playable(game.State())
      invariant Seated(played, askers, botP1, botP2)
      invariant over == GameOver(game.Cells()) && Disks(game.Cells()) <= CellCount
      decreases CellCount - Disks(game.Cells())
    {
      played, askers, over := PlayTurn(game, botP1, botP2, rnd, played, askers);
    }
  }

  /** The disks on a board. */
  function Disks(g: Grid): int
    requires WellFormed(g)
  {
    Count(g, PlayerOne) + Count(g, PlayerTwo)
  }

  /** One pass of the game loop of `matchBots` on a game that is not over:
      the bot of the player to move answers, never with null, and
      `placeDisk` at its answer succeeds, adding one disk; then the loop
      condition is evaluated again. */
  method PlayTurn(game: ReversiGame, botP1: BotKind, botP2: BotKind, rnd: Random,
                  ghost played: seq<(int, int)>, ghost askers: seq<BotKind>)
    returns (ghost played': seq<(int, int)>, ghost askers': seq<BotKind>, over: bool)
    requires game.Valid() && Replay(played) == Some(game.State()) && Playable(game.State())
    requires Seated(played, askers, botP1, botP2)
    requires !GameOver(game.Cells())
    modifies game, game.board, rnd
    ensures game.Valid() && game.board == old(game.board)
    ensures Replay(played') == Some(game.State()) && Playable(game.State())
    ensures Seated(played', askers', botP1, botP2)
    ensures over == GameOver(game.Cells())
    ensures Disks(game.Cells()) == old(Disks(game.Cells())) + 1 <= CellCount
  {
    ghost var before := game.State();
    var currentBot := if game.curPlayer == PlayerOne then botP1 else botP2;
    var move := NextMove(currentBot, game, rnd);
    if move.None? {
      assert false;
    }
    var success := game.PlaceDisk(move.value.row, move.value.col);
    ReplaySnoc(played, before, move.value.row, move.value.col);
    PlacePlayable(before, move.value.row, move.value.col);
    SeatedSnoc(played, askers, botP1, botP2, (move.value.row, move.value.col), currentBot);
    played' := played + [(move.value.row, move.value.col)];
    askers' := askers + [currentBot];
    DisksAtMostCells(game.Cells());
    over := game.IsGameOver();
  }

  /** Game `i` of a match between bots `b1` and `b2`: contestant 1's bot
      `b1` takes the first seat in the even games, the second in the odd
      ones. */
  function SeatsOf(i: int, b1: BotKind, b2: BotKind): (seats: (BotKind, BotKind))
  {
    if C1IsPlayerOne(i) then (b1, b2) else (b2, b1)
  }

  /** A finished game: the moves `played`, each answered by the bot of its
      seat in `seats` as `askers` says, replay from the fresh game to a game
      that is over, and `winner` is its winner. */
  ghost predicate GamePlayed(seats: (BotKind, BotKind), played: seq<(int, int)>, askers: seq<BotKind>, winner: int)
  {
    && Replay(played).Some? && GameOver(Replay(played).value.grid)
    && winner == Winner(Replay(played).value.grid)
    && Seated(played, askers, seats.0, seats.1)
  }

  /** The games of a match so far: game `k` was played with the seats of
      game `k`, and its moves, askers and winner are recorded in order. */
  ghost predicate Recorded(b1: BotKind, b2: BotKind, games: seq<seq<(int, int)>>, askers: seq<seq<BotKind>>, winners: seq<int>)
  {
    && |games| == |askers| == |winners|
    && forall k :: 0 <= k < |winners| ==> GamePlayed(SeatsOf(k, b1, b2), games[k], askers[k], winners[k])
  }

  /** Recording the next game of the match. */
  lemma RecordedSnoc(b1: BotKind, b2: BotKind, games: seq<seq<(int, int)>>, askers: seq<seq<BotKind>>, winners: seq<int>,
                     game: seq<(int, int)>, asked: seq<BotKind>, winner: int)
    requires Recorded(b1, b2, games, askers, winners)
    requires GamePlayed(SeatsOf(|winners|, b1, b2), game, asked, winner)
    ensures Recorded(b1, b2, games + [game], askers + [asked], winners + [winner])
  {
    var n := |winners|;
    forall k | 0 <= k < n + 1
      ensures GamePlayed(SeatsOf(k, b1, b2), (games + [game])[k], (askers + [asked])[k], (winners + [winner])[k])
    {
      if k < n {
        assert (games + [game])[k] == games[k];
        assert (askers + [asked])[k] == askers[k];
        assert (winners + [winner])[k] == winners[k];
      }
    }
  }

  /** `matchBots`: `NumOfGames` games, contestant 1 seated as player one in
      the even ones, and the tally of their winners; the result is the
      difference of wins. The ghost `games` and `askers` record each game's
      moves and the bot that answered each move. */
  method MatchBots(contestant1: TournamentContestant, contestant2: TournamentContestant, rnd: Random)
    returns (diff: int, result: Score, ghost winners: seq<int>,
             ghost games: seq<seq<(int, int)>>, ghost askers: seq<seq<BotKind>>)
    modifies rnd
    ensures |winners| == NumOfGames && forall i :: 0 <= i < NumOfGames ==> 0 <= winners[i] <= 2
    ensures Recorded(contestant1.bot, contestant2.bot, games, askers, winners)
    ensures result == Tally(winners) && diff == result.wins1 - result.wins2
  {
    var s1, s2, ties := 0, 0, 0;
    winners, games, askers := [], [], [];
    for i := 0 to NumOfGames
      invariant |winners| == i && forall k :: 0 <= k < i ==> 0 <= winners[k] <= 2
      invariant Recorded(contestant1.bot, contestant2.bot, games, askers, winners)
      invariant Score(s1, s2, ties) == Tally(winners)
    {
      var c1IsPlayerOne := i % 2 == 0;
      var winner, game, asked := PlayMatchGame(contestant1, contestant2, i, c1IsPlayerOne, rnd);
      s1, s2, ties := Credit(s1, s2, ties, winner, c1IsPlayerOne, winners);
      RecordedSnoc(contestant1.bot, contestant2.bot, games, askers, winners, game, asked, winner);
      winners := winners + [winner];
      games := games + [game];
      askers := askers + [asked];
    }
    diff := s1 - s2;
    result := Score(s1, s2, ties);
  }

  /** The tally step of `matchBots`: a win of player one counts for whoever
      sat there, likewise for player two, anything else is a tie. */
  method Credit(s1: int, s2: int, ties: int, winner: int, c1IsPlayerOne: bool, ghost winners: seq<int>)
    returns (s1': int, s2': int, ties': int)
    requires Score(s1, s2, ties) == Tally(winners) && c1IsPlayerOne == C1IsPlayerOne(|winners|)
    ensures Score(s1', s2', ties') == Tally(winners + [winner])
  {
    s1', s2', ties' := s1, s2, ties;
    if winner == PlayerOne {
      if c1IsPlayerOne {
        s1' := s1 + 1;
      } else {
        s2' := s2 + 1;
      }
    } else if winner == PlayerTwo {
      if c1IsPlayerOne {
        s2' := s2 + 1;
      } else {
        s1' := s1 + 1;
      }
    } else {
      ties' := ties + 1;
    }
    assert (winners + [winner])[..|winners|] == winners;
  }

  /** Game `i` of a match, seated by the parity of `i`. */
  method PlayMatchGame(contestant1: TournamentContestant, contestant2: TournamentContestant, i: int,
                       c1IsPlayerOne: bool, rnd: Random)
    returns (winner: int, ghost played: seq<(int, int)>, ghost askers: seq<BotKind>)
    requires c1IsPlayerOne == C1IsPlayerOne(i)
    modifies rnd
    ensures 0 <= winner <= 2
    ensures GamePlayed(SeatsOf(i, contestant1.bot, contestant2.bot), played, askers, winner)
  {
    ghost var botP1, botP2;
    winner, botP1, botP2, played, askers := PlaySeated(contestant1, contestant2, c1IsPlayerOne, rnd);
  }

  /** One game of a match: contestant 1 takes the first seat when
      `c1IsPlayerOne`, the second otherwise, and every move of the game is
      answered by the bot of its seat; the result is the winner of the final
      board, player one, player two or a tie. */
  method PlaySeated(contestant1: TournamentContestant, contestant2: TournamentContestant, c1IsPlayerOne: bool, rnd: Random)
    returns (winner: int, ghost botP1: BotKind, ghost botP2: BotKind, ghost played: seq<(int, int)>, ghost askers: seq<BotKind>)
    modifies rnd
    ensures botP1 == (if c1IsPlayerOne then contestant1.bot else contestant2.bot)
    ensures botP2 == (if c1IsPlayerOne then contestant2.bot else contestant1.bot)
    ensures Seated(played, askers, botP1, botP2)
    ensures Replay(played).Some? && GameOver(Replay(played).value.grid)
    ensures winner == Winner(Replay(played).value.grid) && 0 <= winner <= 2
  {
    var p1 := if c1IsPlayerOne then contestant1.bot else contestant2.bot;
    var p2 := if c1IsPlayerOne then contestant2.bot else contestant1.bot;
    botP1, botP2 := p1, p2;
    winner, played, askers := PlayGame(p1, p2, rnd);
  }

  /** `competeRoundRobin`: every pairing of the schedule plays a match, and
      the winner of the match, if any, gains a point. The ghost `diffs` are
      the match results in schedule order. */
  method CompeteRoundRobin(contestants: array<TournamentContestant>, rnd: Random) returns (ghost diffs: seq<int>)
    requires forall a, b :: 0 <= a < b < contestants.Length ==> contestants[a] != contestants[b]
    modifies contestants[..], rnd
    ensures |diffs| == |Schedule(contestants.Length)|
    ensures forall k :: 0 <= k < contestants.Length ==>
      contestants[k].score == old(contestants[k].score) + Points(Schedule(contestants.Length), diffs, k)
  {
    var n := contestants.Length;
    diffs := [];
    for i := 0 to n
      invariant |diffs| == |Rows(i, n)|
      invariant forall k :: 0 <= k < n ==> contestants[k].score == old(contestants[k].score) + Points(Rows(i, n), diffs, k)
    {
      diffs := PlayRow(contestants, i, rnd, diffs);
    }
  }

  /** Row `i` of the round robin: contestant `i` plays every later one, in
      order, and the results are appended to `diffs`. */
  method PlayRow(contestants: array<TournamentContestant>, i: int, rnd: Random, ghost diffs: seq<int>)
    returns (ghost diffs': seq<int>)
    requires 0 <= i < contestants.Length && |diffs| == |Rows(i, contestants.Length)|
    requires forall a, b :: 0 <= a < b < contestants.Length ==> contestants[a] != contestants[b]
    modifies contestants[..], rnd
    ensures |diffs'| == |Rows(i + 1, contestants.Length)|
    ensures forall k :: 0 <= k < contestants.Length ==>
      contestants[k].score == old(contestants[k].score) + Points(Rows(i + 1, contestants.Length), diffs', k) - Points(Rows(i, contestants.Length), diffs, k)
  {
    var n := contestants.Length;
    diffs' := diffs;
    ghost var done := Rows(i, n);
    for j := i + 1 to n
      invariant done == Rows(i, n) + Row(i, j) && |diffs'| == |done|
      invariant forall k :: 0 <= k < n ==>
        contestants[k].score == old(contestants[k].score) + Points(done, diffs', k) - Points(Rows(i, n), diffs, k)
    {
      var result := PlayPairing(contestants, i, j, rnd);
      PointsSnoc(done, diffs', Match(i, j), result);
      done := done + [Match(i, j)];
      diffs' := diffs' + [result];
    }
  }

  /** The body of the round robin's inner loop: contestants `i` and `j`
      play their match, and its winner, if any, gains a point. */
  method PlayPairing(contestants: array<TournamentContestant>, i: int, j: int, rnd: Random) returns (result: int)
    requires 0 <= i < j < contestants.Length
    requires forall a, b :: 0 <= a < b < contestants.Length ==> contestants[a] != contestants[b]
    modifies contestants[i], contestants[j], rnd
    ensures forall k :: 0 <= k < contestants.Length ==>
      contestants[k].score == old(contestants[k].score) + Award(Match(i, j), result, k)
  {
    var diff, _, _, _, _ := MatchBots(contestants[i], contestants[j], rnd);
    result := diff;
    if result > 0 {
      contestants[i].score := contestants[i].score + 1;
    } else if result < 0 {
      contestants[j].score := contestants[j].score + 1;
    }
  }
}
