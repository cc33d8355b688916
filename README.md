# Reversi engine, bots and tournament bookkeeping

This project models the core of a Java Reversi (Othello) assignment and proves its rules.

The **engine** is `ReversiGame`. It holds an 8x8 `int` board, mutated in place, and the player to move. Its operations are:
- the fresh game and the copy constructor;
- the bounds check and the opponent;
- the ray walk that counts the disks one direction would flip;
- the single-direction flip;
- `placeDisk` with its turn advance and skip rule;
- the sum of flips of a move;
- the row-major list of legal moves;
- the end-of-game test and the winner.

The engine is the class `Engine.ReversiGame` over an `array2<int>`. Every method is proved against pure rules on board values (`Board`, `Rules`). The two are linked by `Valid()` and the ghost `Cells()`/`State()`.

**How the rules are stated.**
- `Board.FlipsInDirection` is the flip count of one ray.
- `Rules.MoveFlips` is the flip total over the nine increments.
- `Rules.Placed` is the board after a move. It flips every ray as measured on the board *before* the move.
- `Rules.Place` is the whole move: `None` when it is refused, otherwise the new board and the player to move next.

`placeDisk` applies the rays one after the other to the live board. `Engine.ReversiGame.PlaceDisk` proves that this gives exactly `Rules.Placed`.

**The bots** choose a move for the player to move:
- `GreedyBot`: the first maximum-flip move of a shuffled list;
- `TwoStepsBot`: each move scored as its flips minus the greedy reply on a copy of the game;
- `TwoStepsWithLocationBot`: the same, with a corner bonus of 3 and an edge bonus of 0 on both the move and the reply;
- `RandomPlayerBot`: the move at a drawn index.

`MoveScoreComparator` orders moves by descending score.

**Randomness.** `java.util.Random` and `Collections.shuffle` are modelled by `Randomness.Random`, a stream of draws fixed when it is created. Every property of a bot is proved for every stream. Each bot method therefore names the shuffled order it used as a ghost result, and lemmas state what its answer means for every such order.

**The tournament** (`ReversiTournament`) is modelled in module `Tournament`:
- the schedule of `createMatches`;
- the per-game seat swap and tally of `matchBots`;
- the round-robin points of `competeRoundRobin`.

The games themselves are played with the modelled engine and bots. The model proves that the `null`-move fault of `matchBots` cannot occur: every state reached from a fresh game that is not over has a legal move for the player to move. It also proves that every game ends, since each move adds a disk. Every move is answered by the bot in the seat of the player to move, and contestant 1's bot is player one exactly in the even games of a match.

Module `Scenarios` restates the engine's unit tests on the fresh board.

Files:
- `move_score.dfy`: `MoveScore`, `Option`, first maximum;
- `board.dfy`: the board and the ray walk;
- `rules.dfy`: moves, legal-move lists, turns and the winner;
- `engine.dfy`: `ReversiGame`;
- `comparator.dfy`: the comparator and the sort;
- `random.dfy`: the random source;
- `greedy_bot.dfy`, `two_steps_bot.dfy`, `location_bot.dfy`, `random_bot.dfy`: the four bots;
- `tournament.dfy`: the tournament;
- `scenarios.dfy`: the test scenarios.

## Model

| member | source | states |
|---|---|---|
| Engine.ReversiGame.constructor | src/reversi/ReversiGame.java:26-35 | the new game's board is the fresh board: (3,3) and (4,4) hold 1, (3,4) and (4,3) hold 2, every other cell is 0; player one moves first |
| Rules.InitialGrid | test/ReversiGameTest.java:12-28 | the fresh board agrees cell by cell with the expected board of the constructor test |
| Engine.ReversiGame.Copy | src/reversi/ReversiGame.java:41-49 | the copy has the same board and player as the original, on a newly allocated board, so writes to the copy never reach the original |
| Engine.ReversiGame.IsOnBoard | src/reversi/ReversiGame.java:106-108 | true exactly when 0 <= row < 8 and 0 <= col < 8 |
| Board.Opponent | src/reversi/ReversiGame.java:116-118 | the answer is a player other than the argument; for a player, the two add up to 3 (1 and 2 swap) |
| Board.OpponentInvolutive | src/reversi/ReversiGame.java:116-118 | the opponent of the opponent of a player is that player |
| Engine.ReversiGame.CalcFlipsInDirection | src/reversi/ReversiGame.java:131-151 | a fault exactly when the origin is off the board; otherwise the flip count of the ray on the current board |
| Board.FlipsSound | src/reversi/ReversiGame.java:140-150 | a positive count n means cells 1..n of the ray hold the opponent and cell n+1 is on the board and holds the player |
| Board.FlipsComplete | src/reversi/ReversiGame.java:140-150 | conversely, k > 0 opponent disks closed by a disk of the player give exactly k |
| Board.NoFlipsInPlace | src/reversi/ReversiGame.java:136-150 | the (0,0) increment flips nothing from a cell that does not hold the opponent |
| Board.FlipsFrame | src/reversi/ReversiGame.java:140-150 | the count depends only on the cells of the ray |
| Engine.ReversiGame.UpdateMoveDisksInSingleDirection | src/reversi/ReversiGame.java:161-177 | returns the ray's flip count n; exactly steps 1..n of the ray become the mover's and nothing else changes; the mover gains n disks and the opponent loses n |
| Engine.ReversiGame.PlaceDisk | src/reversi/ReversiGame.java:186-210 | succeeds exactly when the rules accept the move. On success the board is the board with all rays flipped as measured before the move, and the turn passes by the skip rule. On failure, board and player are unchanged. The mover's count rises by 1 + flips and the opponent's falls by flips |
| Rules.PlacedChangesExactlyFlipped | src/reversi/ReversiGame.java:195-202 | after a move, a cell differs from before exactly when it is the target or lies in a sandwiched run |
| Rules.PlacedCellChange | src/reversi/ReversiGame.java:195-202 | a changed cell now holds the mover and held the opponent before, or was the empty target |
| Rules.PlacedFlipsOpponentRuns | src/reversi/ReversiGame.java:161-177 | every flipped cell other than the target is on the board and held the opponent |
| Rules.PlaceValid | src/reversi/ReversiGame.java:186-210 | an accepted move leaves a board of 0, 1 and 2 and a player 1 or 2 to move |
| Rules.PlaceTurn | src/reversi/ReversiGame.java:284-292 | after a move the opponent moves if they have a legal move, otherwise the mover again; the new player has no move exactly when the game is over |
| Engine.ReversiGame.SwitchToNextPlayablePlayer | src/reversi/ReversiGame.java:284-292 | the field and the answer are the player chosen by the skip rule; the board is untouched |
| Engine.ReversiGame.CalcMoveFlips | src/reversi/ReversiGame.java:225-237 | zero on an occupied cell, otherwise the sum of the nine rays' flip counts |
| Engine.ReversiGame.GetPossibleMoves | src/reversi/ReversiGame.java:246-259 | a new array holding the rules' legal-move list of `player` |
| Rules.PossibleMovesSpec | src/reversi/ReversiGame.java:246-259 | the list has at most 64 entries; it holds exactly the on-board cells with a positive flip total, each with that total as score, without duplicates, in row-major order |
| Rules.HasMoveIff | src/reversi/ReversiGame.java:249-256 | a cell with a positive flip total is listed with that score, so the list is not empty |
| Engine.ReversiGame.GetCurrentPossibleMoves | src/reversi/ReversiGame.java:264-266 | the legal-move list of the player to move |
| Rules.ListedMoveIsPlayable | src/reversi/ReversiGame.java:252-253 | a listed move is on the board, its score is its positive flip total, and `placeDisk` accepts it |
| Engine.ReversiGame.IsGameOver | src/reversi/ReversiGame.java:275-277 | true exactly when neither player has a legal move |
| Engine.ReversiGame.GetWinner | src/reversi/ReversiGame.java:300-324 | -1 while the game is not over; otherwise 1 or 2 for the player with more disks, 0 on equal counts |
| Engine.ReversiGame.CountDisks | src/reversi/ReversiGame.java:304-315 | the number of cells holding 1 and the number holding 2 |
| Rules.DisksAtMostCells | src/reversi/ReversiGame.java:304-315 | the two counts add up to at most the 64 cells |
| Comparator.Compare | src/reversi/MoveScoreComparator.java:9-11 | negative exactly when the first score is higher, zero exactly when the scores are equal, positive exactly when it is lower; row and column play no part |
| Comparator.CompareAntisymmetric | src/reversi/MoveScoreComparator.java:10 | compare(a, b) == -compare(b, a) |
| Comparator.CompareTransitive | src/reversi/MoveScoreComparator.java:5-11 | the order is transitive |
| Comparator.SortByScore | src/reversi/TwoStepsBot.java:24 | the sorted list is a permutation of the input, ordered by the comparator |
| Comparator.InsertSorted | src/reversi/TwoStepsBot.java:24 | inserting into a sorted list keeps it sorted |
| Comparator.SortedHeadIsMax | src/reversi/MoveScoreComparator.java:6 | a sorted list has non-increasing scores, so its head has the maximum score |
| Comparator.SortHeadIsFirstMax | src/reversi/TwoStepsBot.java:24-28 | the head of the stable sort is the first maximum of the unsorted list, the move the greedy scan picks |
| Comparator.Sort | src/reversi/TwoStepsBot.java:24 | sorts an array in place into the stable sort of its old contents |
| MoveScores.MaxScore | src/reversi/GreedyBot.java:29-33 | no score exceeds it and some move attains it |
| MoveScores.FirstMaxIsMax | src/reversi/GreedyBot.java:28-33 | the first maximum has the maximum score and is unique |
| Randomness.Random.NextInt | src/reversi/RandomPlayerBot.java:23 | answers the draw reduced into [0, bound) and consumes it |
| Randomness.Draw | src/reversi/RandomPlayerBot.java:23 | always in [0, bound); a draw already in range is answered as it is, so every index can come up |
| Randomness.Shuffle | src/reversi/GreedyBot.java:22 | the shuffled array is a permutation of the old one |
| GreedyBots.Greedy | src/reversi/GreedyBot.java:24-34 | none exactly on an empty list; otherwise a member with a score at least every member's, and it is the first maximum |
| GreedyBots.BestOf | src/reversi/GreedyBot.java:28-34 | the scan that replaces the best only on a strictly larger score answers the first maximum |
| GreedyBots.GreedyOverPermutation | src/reversi/GreedyBot.java:20-34 | for every permutation of the moves: none exactly when there are none, otherwise a move with the maximum score; with one move, that move |
| GreedyBots.GreedyChoice | src/reversi/GreedyBot.java:18-35 | for every shuffle: none exactly when the player to move has no move; otherwise one of their legal moves, unchanged, with the maximum flip count, score > 0, and accepted by `placeDisk` |
| GreedyBots.GreedyBot.GetNextGreedyMove | src/reversi/GreedyBot.java:18-35 | the answer is the first maximum of a permutation of the current legal moves; only the random source is modified, never the game |
| GreedyBots.GreedyBot.GetNextMove | src/reversi/GreedyBot.java:14-16 | none exactly when there is no legal move, otherwise a move `placeDisk` accepts |
| TwoStepsBots.AfterMoveValid | src/reversi/TwoStepsBot.java:41-42 | the state after playing the move on a copy is a valid game state |
| TwoStepsBots.PlayOnCopy | src/reversi/TwoStepsBot.java:41-42 | a fresh game, on fresh storage, in the state after the move; the original is untouched |
| TwoStepsBots.TwoStepScoreIsWorstReply | src/reversi/TwoStepsBot.java:40-53 | a candidate keeps the move's position. Its score is the move's flips when nobody can move afterwards (the copy's game is over). Otherwise it is the flips minus the best move of whoever moves next on the copy, which is the mover again when the opponent must pass, so it is at most the flips minus every such move |
| TwoStepsBots.ReplyDecidesScore | src/reversi/TwoStepsBot.java:43-52 | for every shuffle of the replies, the greedy reply gives the same candidate score |
| TwoStepsBots.LegalMoveEvaluation | src/reversi/TwoStepsBot.java:41-49 | the copy accepts every evaluated move, and the no-reply branch is taken exactly when the copy's game is over |
| TwoStepsBots.TwoStepScoresAt | src/reversi/TwoStepsBot.java:31-38 | entry i of the candidate list is the two-step score of move i |
| TwoStepsBots.CandidateOfMove | src/reversi/TwoStepsBot.java:20 | every legal move has its candidate in the list |
| TwoStepsBots.MoveOfCandidate | src/reversi/TwoStepsBot.java:20 | every candidate comes from a legal move and sits on a cell `placeDisk` accepts |
| TwoStepsBots.TwoStepChoice | src/reversi/TwoStepsBot.java:19-29 | for every shuffle: none exactly when there is no legal move; otherwise the candidate of a legal move whose score is at least every legal move's two-step score, on a cell `placeDisk` accepts |
| TwoStepsBots.SortAndTakeFirst | src/reversi/TwoStepsBot.java:24-28 | sorts the array and answers its first maximum, none when it is empty |
| TwoStepsBots.TwoStepsBot.GetTwoStepsGreedyMoveFor | src/reversi/TwoStepsBot.java:40-53 | the candidate of one move, computed on a copy of the game |
| TwoStepsBots.TwoStepsBot.GetTwoStepsGreedyMoveScoreForMoves | src/reversi/TwoStepsBot.java:31-38 | a new array of the candidates of the given moves, in order |
| TwoStepsBots.TwoStepsBot.CandidateScores | src/reversi/TwoStepsBot.java:20 | the candidates of the current legal moves |
| TwoStepsBots.TwoStepsBot.GetTwoStepsGreedyMove | src/reversi/TwoStepsBot.java:19-29 | the first maximum of a permutation of the candidates |
| TwoStepsBots.TwoStepsBot.GetNextMove | src/reversi/TwoStepsBot.java:14-16 | none exactly when there is no legal move, otherwise a move `placeDisk` accepts |
| LocationBots.IsOnEdge | src/reversi/TwoStepsWithLocationBot.java:42-48 | on the board: row or column is 0 or 7, i.e. outside the inner 6x6 square |
| LocationBots.IsInCorner | src/reversi/TwoStepsWithLocationBot.java:50-62 | exactly the four corners; a corner is on an edge |
| LocationBots.AddLocationBonus | src/reversi/TwoStepsWithLocationBot.java:7-8 | position kept; 3 added in a corner; any other move, edge or not, unchanged (the edge bonus is 0) |
| LocationBots.BonusAllAt | src/reversi/TwoStepsWithLocationBot.java:99-105 | entry i of the bonus list is move i with its bonus |
| LocationBots.BonusAllMembers | src/reversi/TwoStepsWithLocationBot.java:99-105 | the bonus list holds exactly the moves with their bonus |
| LocationBots.BonusGreedyOverPermutation | src/reversi/TwoStepsWithLocationBot.java:85-97 | for every permutation: none exactly when there are no moves; otherwise the bonus version of a move, with the maximum bonus-adjusted score |
| LocationBots.BonusGreedyChoice | src/reversi/TwoStepsWithLocationBot.java:85-97 | the bonus greedy reply over any shuffle of the legal moves: none exactly when there are none; otherwise the bonus version of a legal move, with the maximum bonus-adjusted score, on a cell `placeDisk` accepts |
| LocationBots.LocationScoreIsWorstReply | src/reversi/TwoStepsWithLocationBot.java:64-82 | a candidate keeps the move's position. Its score is the move's bonus score when nobody can move afterwards (the copy's game is over). Otherwise it is that score minus the best bonus-adjusted move of whoever moves next on the copy, the mover again when the opponent must pass, so at most that score minus every such move's |
| LocationBots.LocationReplyDecidesScore | src/reversi/TwoStepsWithLocationBot.java:69-80 | for every shuffle of the replies, the candidate is decided by the reply of `getNextGreedyMoveWithLocationBonus` on the copy, a one-ply bonus-greedy pick (lines 71-72 and 85-97) |
| LocationBots.LocationScoresAt | src/reversi/TwoStepsWithLocationBot.java:107-113 | entry i of the candidate list is the location score of move i |
| LocationBots.LocationCandidateOfMove | src/reversi/TwoStepsWithLocationBot.java:21 | every legal move has its candidate in the list |
| LocationBots.MoveOfLocationCandidate | src/reversi/TwoStepsWithLocationBot.java:21 | every candidate comes from a legal move and sits on a cell `placeDisk` accepts |
| LocationBots.LocationChoice | src/reversi/TwoStepsWithLocationBot.java:20-30 | for every shuffle: none exactly when there is no legal move; otherwise the candidate of a legal move whose score is at least every legal move's location score, on a cell `placeDisk` accepts |
| LocationBots.AddLocationBonusToMoveScores | src/reversi/TwoStepsWithLocationBot.java:99-105 | a new array of the moves with their bonus, in order |
| LocationBots.ShuffleAndTakeFirst | src/reversi/TwoStepsWithLocationBot.java:22-29 | the first maximum of a permutation of the array; an empty array is answered none without drawing |
| LocationBots.BestWithBonus | src/reversi/TwoStepsWithLocationBot.java:94-96 | the first maximum of the moves with their bonus |
| LocationBots.TwoStepsWithLocationBot.GetTwoStepsMoveScore | src/reversi/TwoStepsWithLocationBot.java:64-82 | the location candidate of one move, computed on a copy of the game |
| LocationBots.TwoStepsWithLocationBot.GetNextGreedyMoveWithLocationBonus | src/reversi/TwoStepsWithLocationBot.java:85-97 | the first maximum of the bonus versions of a permutation of the legal moves |
| LocationBots.TwoStepsWithLocationBot.GetTwoStepsPreferLocationMoveScores | src/reversi/TwoStepsWithLocationBot.java:107-113 | a new array of the location candidates of the given moves, in order |
| LocationBots.TwoStepsWithLocationBot.CandidateScores | src/reversi/TwoStepsWithLocationBot.java:21 | the location candidates of the current legal moves |
| LocationBots.TwoStepsWithLocationBot.GetTwoStepsPreferLocationMove | src/reversi/TwoStepsWithLocationBot.java:20-30 | the first maximum of a permutation of the location candidates |
| LocationBots.TwoStepsWithLocationBot.GetNextMove | src/reversi/TwoStepsWithLocationBot.java:16-18 | none exactly when there is no legal move, otherwise a move `placeDisk` accepts |
| RandomBots.RandomPick | src/reversi/RandomPlayerBot.java:17-24 | none exactly on an empty list, otherwise one of its moves |
| RandomBots.EveryMoveCanBePicked | src/reversi/RandomPlayerBot.java:23 | each move is the answer on some draw |
| RandomBots.RandomChoice | src/reversi/RandomPlayerBot.java:17-24 | for every draw: none exactly when there is no legal move; otherwise a legal move with score > 0 that `placeDisk` accepts |
| RandomBots.RandomPlayerBot.GetRandomMove | src/reversi/RandomPlayerBot.java:17-24 | the pick at the next draw among the current legal moves; no draw is taken when there are none; the game is never modified |
| RandomBots.RandomPlayerBot.GetNextMove | src/reversi/RandomPlayerBot.java:13-15 | none exactly when there is no legal move, otherwise a move `placeDisk` accepts |
| Tournament.Row | src/reversi/tournament/ReversiTournament.java:47-49 | row i up to j has j - i - 1 pairings |
| Tournament.RowMembers | src/reversi/tournament/ReversiTournament.java:47-49 | row i holds exactly the pairings (i, j') with i < j' < j |
| Tournament.RowsMembers | src/reversi/tournament/ReversiTournament.java:46-50 | the first k rows hold exactly the pairings (i, j) with i < k and i < j < n |
| Tournament.ScheduleMembers | src/reversi/tournament/ReversiTournament.java:44-52 | the schedule holds exactly the pairs i < j < n, so nobody meets themself |
| Tournament.OrderedAppend | src/reversi/tournament/ReversiTournament.java:46-50 | appending an ordered list whose pairs all come later keeps the order strict |
| Tournament.RowOrdered | src/reversi/tournament/ReversiTournament.java:47-49 | a row is strictly increasing in the second index |
| Tournament.RowsOrdered | src/reversi/tournament/ReversiTournament.java:46-50 | the rows so far are in strictly increasing lexicographic order |
| Tournament.ScheduleOrdered | src/reversi/tournament/ReversiTournament.java:44-52 | the schedule is in strictly increasing lexicographic (i, j) order, so each pair appears exactly once |
| Tournament.RowsLength | src/reversi/tournament/ReversiTournament.java:46-50 | the first k rows hold k(2n - k - 1)/2 pairings |
| Tournament.ScheduleLength | src/reversi/tournament/ReversiTournament.java:44-52 | n contestants give n(n - 1)/2 matches |
| Tournament.CreateMatches | src/reversi/tournament/ReversiTournament.java:44-52 | the nested loops build exactly the schedule |
| Tournament.TournamentContestant.constructor | src/reversi/tournament/ReversiTournament.java:192-195 | the contestant's bot is the given one and its score starts at 0 |
| Tournament.Award | src/reversi/tournament/ReversiTournament.java:106-110 | a match gives a contestant 0 or 1 points |
| Tournament.AwardOneMatch | src/reversi/tournament/ReversiTournament.java:106-110 | a decided match gives exactly one point, to one of its two contestants; a drawn one gives none; bystanders get nothing |
| Tournament.Points | src/reversi/tournament/ReversiTournament.java:103-110 | points over a list of matches lie between 0 and the number of matches |
| Tournament.PointsSnoc | src/reversi/tournament/ReversiTournament.java:105-110 | one more match adds exactly its award |
| Tournament.PointsAtMostPlays | src/reversi/tournament/ReversiTournament.java:103-110 | nobody scores more points than the matches they take part in |
| Tournament.Plays | src/reversi/tournament/ReversiTournament.java:103-104 | a contestant takes part in at most all the matches |
| Tournament.PlaysAppend | src/reversi/tournament/ReversiTournament.java:103-104 | participations over two lists add up |
| Tournament.PlaysRow | src/reversi/tournament/ReversiTournament.java:104 | in row i, contestant i plays every later one, each later one plays once, earlier ones not at all |
| Tournament.PlaysRows | src/reversi/tournament/ReversiTournament.java:103-104 | after the first i rows, a contestant below i has played n - 1 matches, any other one i matches |
| Tournament.RoundRobinPoints | src/reversi/tournament/ReversiTournament.java:100-118 | in the full round robin everyone plays n - 1 matches, so scores at most n - 1 points |
| Tournament.CompeteRoundRobin | src/reversi/tournament/ReversiTournament.java:100-118 | for the match results played, each contestant's score grows by exactly the points the schedule awards them |
| Tournament.PlayRow | src/reversi/tournament/ReversiTournament.java:104-116 | one pass of the inner loop adds to each score exactly the points of row i |
| Tournament.PlayPairing | src/reversi/tournament/ReversiTournament.java:105-110 | one match: +1 to i when the result is positive, +1 to j when negative, nothing otherwise; no other score changes |
| Tournament.Tally | src/reversi/tournament/ReversiTournament.java:151-165 | every game counts once towards the first contestant's wins, the second's wins or the ties, so the three add up to the games played |
| Tournament.SeatAdvantageCancels | src/reversi/tournament/ReversiTournament.java:135-165 | contestant 1 is player one in the even games: if player one won every game, contestant 1 has (n+1)/2 and contestant 2 has n/2 of the wins |
| Tournament.MatchBots | src/reversi/tournament/ReversiTournament.java:121-185 | 20 games with winners in 0..2. Game i is seated as `SeatsOf(i)` says: contestant 1's bot is player one in the even games and player two in the odd ones. Each game's moves replay from a fresh game to a finished one, every move answered by the bot in the mover's seat, and its winner is that board's winner. The result is the tally of the winners, and diff is wins of contestant 1 minus wins of contestant 2 |
| Tournament.RecordedSnoc | src/reversi/tournament/ReversiTournament.java:133-150 | recording one more game played with the next game's seats keeps the record |
| Tournament.Credit | src/reversi/tournament/ReversiTournament.java:151-165 | the tally counters after one more game are the tally of the winners with that game added: a player-one win credits whoever sat there, likewise player two, anything else is a tie |
| Tournament.PlayMatchGame | src/reversi/tournament/ReversiTournament.java:134-150 | game i of a match is played with the seats of game i, as `GamePlayed` states |
| Tournament.PlaySeated | src/reversi/tournament/ReversiTournament.java:134-150 | player one's seat gets contestant 1's bot when `c1IsPlayerOne`, contestant 2's otherwise, and player two's seat the other one. Every move of the game is answered by the bot in the mover's seat, the game ends, and the winner is the final board's winner, 0, 1 or 2 |
| Tournament.PlayGame | src/reversi/tournament/ReversiTournament.java:134-150 | the game ends after a sequence of moves that replays from the fresh board, and move k was answered by the bot in the seat of the player to move after k moves. The winner is that final board's winner, never -1 |
| Tournament.SeatedSnoc | src/reversi/tournament/ReversiTournament.java:143-145 | a move answered by the bot in the seat of the player to move extends the seating |
| Tournament.RunGame | src/reversi/tournament/ReversiTournament.java:142-150 | the loop ends with the game over, in a state the moves played replay to, each move answered by the bot in its seat |
| Tournament.PlayTurn | src/reversi/tournament/ReversiTournament.java:143-149 | in a game that is not over, the bot in the seat of the player to move answers a move (never `null`), `placeDisk` accepts it, and the board gains one disk |
| Tournament.NextMove | src/reversi/tournament/ReversiTournament.java:143-145 | whichever bot is seated answers none exactly when there is no legal move, otherwise a move `placeDisk` accepts |
| Tournament.Replay | src/reversi/tournament/ReversiTournament.java:142-150 | replaying accepted moves from the fresh game gives a well-formed board |
| Tournament.ReplaySnoc | src/reversi/tournament/ReversiTournament.java:149 | one more accepted move extends the replay by that move |
| Tournament.ReplayStep | src/reversi/tournament/ReversiTournament.java:149 | a replay of n moves is the replay of the first n - 1 followed by an accepted move |
| Tournament.InitialHasMove | src/reversi/ReversiGame.java:26-35 | on the fresh board player one can play (2, 4), so the player to move has a move |
| Tournament.InitialValid | src/reversi/ReversiGame.java:26-35 | the fresh game is a valid state |
| Tournament.InitialPlayable | src/reversi/ReversiGame.java:26-35 | the fresh game is valid and its player to move has a move |
| Tournament.PlacePlayable | src/reversi/ReversiGame.java:284-292 | after any accepted move, if the player to move has no move then the game is over |
| Tournament.ReplayPlayable | src/reversi/tournament/ReversiTournament.java:142-148 | in every state reached from a fresh game, a game that is not over has a legal move for the player to move, so the `null`-move fault cannot occur |
| Scenarios.OpenRay | src/reversi/ReversiGame.java:140-150 | a run of opponent disks that is empty or not closed by the player's disk flips nothing |
| Scenarios.InitialOpenRay | src/reversi/ReversiGame.java:140-150 | on the fresh board an open ray flips nothing for player one |
| Scenarios.SumOfDirections | src/reversi/ReversiGame.java:231-235 | the flip total of a cell is the sum of its nine rays |
| Scenarios.QuietOnInitial | src/reversi/ReversiGame.java:190-207 | an empty fresh-board cell open in every direction flips nothing and is refused |
| Scenarios.InitialRejectsOpen | test/ReversiGameTest.java:50-56 | (3,2), (5,4), (0,0) and (5,2) are refused on the fresh board |
| Scenarios.InitialRejects | test/ReversiGameTest.java:47-57 | player one cannot play at (3,2), (5,4), (0,0), (3,3), (3,4) or (5,2) on the fresh board |
| Scenarios.FirstMovesRejected | test/ReversiGameTest.java:47-57 | the six `placeDisk` calls on one fresh game all answer false |
| Scenarios.InitialAccepts | test/ReversiGameTest.java:41-45 | (2,4) flips exactly one disk on the fresh board and is accepted |
| Scenarios.InitialSouthRay | test/ReversiGameTest.java:41-45 | from (2,4) the ray down the column flips one disk for player one |
| Scenarios.InitialFlip | test/ReversiGameTest.java:41-45 | after (2,4), player two's disk at (3,4) is player one's |
| Scenarios.PlacedNeighbour | src/reversi/ReversiGame.java:195-202 | an accepted move whose ray flips anything takes the first cell of that ray for the mover |
| Scenarios.FirstMoveAccepted | test/ReversiGameTest.java:41-45 | `placeDisk(2, 4)` on a fresh game answers true |
| Scenarios.InitialNotOver | test/ReversiGameTest.java:59-69 | the fresh game is not over and has winner -1 |
| Scenarios.FreshGame | test/ReversiGameTest.java:59-69 | `isGameOver` answers false and `getWinner` answers -1 on a fresh game |

## Left out

- `printBoard` and the message `placeDisk` prints are console output (src/reversi/ReversiGame.java:81-98, 188). They are not modelled.
- `getBoard` and `getCurPlayer` are plain getters. The model reads the fields directly.
- The `RuntimeException` of `calcFlipsInDirection` is the `Fault` result. The (0,0) increment from a cell holding the opponent would loop forever in the source. It is excluded by a precondition because no caller passes it.
- `placeDisk` and `calcMoveFlips` index the board without a bounds check. Being on the board is their precondition.
- Java's 32-bit `int` arithmetic is left out, as are the subtraction in `MoveScoreComparator.compare` and the score counters. No value in the game comes near overflow: scores are bounded by 64 and counters by the number of matches.
- `Randomness.Shuffle`: its contract states only that the result is a permutation. Which permutation comes out depends on the stream, and every bot property is proved for all of them. The distributions of `java.util.Random` and `Collections.shuffle` are not modelled.
- `Randomness.Draw`: `nextInt(bound)` is modelled as the next draw reduced modulo `bound`, with 0 once the stream is exhausted. It is not Java's generator algorithm.
- `Comparator.Sort`: `Arrays.sort` with a comparator is stable. The model uses a stable insertion sort, which gives the same result as Java's merge sort but is not that algorithm.
- Bots are `const` over the game and the random stream. The source has a `Random` per `RandomPlayerBot` and a global shuffle source. In the model one stream is shared by all bots and games.
- The tournament builds a fresh bot per move (`Tournament.NextMove`). The source builds one bot per seat and game. Besides the game, the only state a bot holds is its random source (`RandomPlayerBot` has its own `java.util.Random`). The model shares one random stream, as the previous line says. Since every property holds for every stream, building the bots per move does not change what they can answer.
- Tournament.CreateMatches: a `Match` records the two contestants' positions in the list, where the source holds object references. The pairs come in the same order.
- The reflection, `loadContestants`, `printLeaderboard`, `main`'s shuffle and sort of contestants, the `VERBOSE` and `PAUSE_FOR_INPUT` switches and `System.in` pauses in src/reversi/tournament/ReversiTournament.java are I/O and class loading. They are not modelled.
- Bot classes are picked by a `BotKind` value rather than loaded by class name.
- src/reversi/tournament/ReversiTournamentUI.java is Swing UI and is not part of this model.
- src/reversi/RenameThisClassMyReversiBot.java is a template that the tournament skips, and src/reversi/ReversiMain.java has an empty `main`. Neither is part of this model.
- `testPlaceDisksFromInitialState1` (test/ReversiGameTest.java:30-39) is not restated. It is a six-move sequence whose boards would have to be evaluated cell by cell.
