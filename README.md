# Othello: rules engine and AI decision logic, modelled in Dafny

This project models the core of an Othello program: the board and its move rules, the stability classifier, the scalar heuristics, the minimax search and the strategic player's dispatch. It then proves properties of that model.

- **Board and move rules.** The `Othello` class holds an 8×8 board, the side to move and the legal-move table. Module `Game` models it as a Dafny class over an `array2<Cell>`. Its methods `captured`, `calculateLegalMoves`, `placePiece` and `score` are each proved to compute a function of module `Rules`; the board comparison, a module-level function, is proved to compare the two boards square by square. The lemmas about those functions state what a move captures, which squares are legal, what a move changes, and how the turn is handed over.
- **Stability classifier.** `stabilityHeuristic` has four phases: marking the capturable pieces UNSTABLE, marking the corner runs STABLE, promoting interior pieces to a fixed point, and the tally. Module `StabilitySpec` states each phase as a function and proves what it does. Module `StabilityHeuristic` is the in-place version over an `array2<Stability>`, proved equal to those functions phase by phase.
- **Scalar heuristics.** Module `Heuristics` covers coin parity, corners, mobility and the weighted composite. Each is a function of the position with its range and sign proved, plus a method that reads the `Othello` object as the source does.
- **Minimax search.** Module `MinMax` gives the search as functions for any heuristic `h: Position -> real`:
  - the child's role comes from whether the mover changed;
  - selection is non-strict, so a later child wins a tie;
  - the maximising sentinel is a parameter: `DBL_MIN` as written, `-DBL_MAX` as evidently intended (see Findings), and the minimising one is `DBL_MAX`;
  - below the root, a node reports its own move.

  The tie-breaking fold is proved against an independent "last best reply" characterisation. A recursive method over copied `Othello` objects is proved to return what the functions describe.
- **Strategic player.** Module `StrategicAi` models the dispatch on the number of legal moves.

Heuristic values are exact `real`s. Board indices are `[x][y]`, as in the source.

## Model

| member | source | states |
|---|---|---|
| `Board.WriteAll` | src/Othello.cpp:39-41 | the loop of stores leaves the board painted with the mover's colour at every captured square, in order |
| `Rules.Walk` | src/Othello.cpp:60-73 | one ray loop: extends the run while the next square holds an opponent piece, commits it on a piece of the mover, drops it at an empty square or the edge (contract: `Rules.RayCapturesSound`, `Rules.RayCommits`, `Rules.RayDeadEnd`) |
| `Rules.Captured` | src/Othello.cpp:50-184 | `captured`: nothing for an occupied target, else the eight rays' runs in the source's order (contract: `Rules.CapturedSound`) |
| `Rules.LegalMoves` | src/Othello.cpp:203-213 | `calculateLegalMoves`: the row-major table of squares with a non-empty capture list (contract: `Rules.LegalMovesSpec`, `Rules.LegalMovesBound`) |
| `Rules.Play` | src/Othello.cpp:28-48 | `placePiece` on a value: the legality test, the stores, and the handing over of the turn (contract: `Rules.PlayRejects`, `Rules.PlayPlaces`, `Rules.PlayTurn`) |
| `Rules.Score` | src/Othello.cpp:186-201 | `score`: the (black, white) piece counts (contract: `Rules.ScoreSum`) |
| `Rules.RayCapturesSound` | src/Othello.cpp:60-73 | a ray contributes a run of opponent pieces starting next to the target, and contributes only when a piece of the mover closes the run |
| `Rules.RayCommits` | src/Othello.cpp:62-69 | a run of n ≥ 1 opponent pieces closed by a piece of the mover is captured whole, square by square along the ray |
| `Rules.RayDeadEnd` | src/Othello.cpp:62-72 | a run that ends at an empty square or at the edge of the board adds nothing |
| `Rules.CapturedSound` | src/Othello.cpp:50-184 | an occupied target captures nothing; every captured square is on the board, holds an opponent piece, is not the target, and appears once |
| `Rules.LegalMovesSpec` | src/Othello.cpp:203-213 | the table lists, in strictly increasing row-major order, exactly the squares with a non-empty capture list, each with that list; every key is an empty square, and `find` answers from `captured` |
| `Rules.FindLegal` | src/Othello.cpp:29-30 | looking a square up in the table finds its capture list exactly when it is on the board and `captured` is non-empty there |
| `Rules.LegalMovesBound` | src/Othello.cpp:203-213 | there are at most as many legal moves as empty squares |
| `Rules.ScoreSum` | src/Othello.cpp:186-201 | black plus white equals 64 minus the empty squares |
| `Rules.PlayGrid` | src/Othello.cpp:35-41 | after a legal move the board is the old board with the mover's piece on the target and then on each captured square |
| `Rules.PlayRejects` | src/Othello.cpp:29-34 | a move is rejected, with "Illegal move" at that square, exactly when the square is off the board or captures nothing |
| `Rules.PlayPlaces` | src/Othello.cpp:35-41 | after a legal move the target and every captured square hold the mover's colour, and every other square is unchanged |
| `Rules.PlaceFillsOne` | src/Othello.cpp:38-41 | placing on an empty square and flipping occupied ones lowers the empty count by exactly one |
| `Rules.PlayAddsOnePiece` | src/Othello.cpp:35-41 | a legal move lowers the empty count by one, so the two score components together grow by exactly one |
| `Rules.PlayTurn` | src/Othello.cpp:42-47 | the mover stays the same exactly when the opponent has no legal move; if the final mover has none, neither side has one |
| `Rules.PlayKey` | src/Othello.cpp:29-41 | every key of the table is accepted by `placePiece` and fills one empty square, which is what makes the search terminate |
| `Rules.Initial` | src/Othello.cpp:19-24 | black moves first; the four centre squares hold W, B, B, W at [3][3], [3][4], [4][3], [4][4], and every other square is empty |
| `Game.Othello.constructor` | src/Othello.cpp:19-26 | a fresh board in the opening position, with black to move and the table equal to that position's legal moves |
| `Game.Othello.PlaceOpening` | src/Othello.cpp:20-24 | the four stores turn the empty board into the opening board |
| `Game.Othello.Copy` | src/MinMaxStrategy.cpp:60 | the copy of a game has a fresh board holding the same position and table |
| `Game.Othello.ScanRay` | src/Othello.cpp:60-73 | the loop of one ray returns exactly that ray's committed run |
| `Game.Othello.CastRays` | src/Othello.cpp:59-181 | the eight ray loops concatenate their runs in the order they are cast |
| `Game.Othello.Captured` | src/Othello.cpp:50-184 | `captured` returns exactly `Rules.Captured`, including the empty list for an occupied target |
| `Game.Othello.CalculateLegalMoves` | src/Othello.cpp:203-213 | the rebuilt table is exactly the legal moves of the position, in row-major order |
| `Game.Othello.RowMoves` | src/Othello.cpp:206-211 | the inner loop yields row i's legal moves, which are followed by those of the later rows |
| `Game.Othello.PlacePiece` | src/Othello.cpp:28-48 | an illegal square fails with "Illegal move" and leaves the position unchanged; otherwise the new position is `Rules.Play`'s, and the table always matches the mover |
| `Game.Othello.PassTurn` | src/Othello.cpp:42-47 | the turn passes to the opponent, or comes back when the opponent has no legal move; the board is untouched and the table matches the final mover |
| `Game.Othello.Score` | src/Othello.cpp:186-201 | the scan returns (black pieces, white pieces) of the board |
| `Game.Othello.ScoreRow` | src/Othello.cpp:189-199 | the inner loop counts row i's pieces of each colour |
| `Game.SameBoard` | src/Othello.cpp:215-217 | two games compare equal exactly when every square agrees, whoever is to move |
| `StabilitySpec.MarkUnstable` | src/stabilityHeuristic.cpp:32-38 | the first phase: every square some table entry captures becomes UNSTABLE (contract: `StabilitySpec.MarkUnstableAt`) |
| `StabilitySpec.CheckCorner` | src/stabilityHeuristic.cpp:41-66 | `checkCorner`: the row and column runs of an occupied corner become STABLE (contract: `StabilitySpec.CheckCornerAt`) |
| `StabilitySpec.MarkEdges` | src/stabilityHeuristic.cpp:40-72 | `markEdgesAsStable`: the four corner checks in the source's order (contract: `StabilitySpec.MarkEdgesAt`) |
| `StabilitySpec.IsStable` | src/stabilityHeuristic.cpp:74-164 | `checkIfPieceIsStable` with the other diagonal bounded on the board: an empty-tile error, else whether all four axes hold (contract: `StabilitySpec.StableByLines`) |
| `StabilitySpec.IsStableAsWritten` | src/stabilityHeuristic.cpp:74-164 | `checkIfPieceIsStable` as written, with the other-diagonal loop that can run off the board (contract: `StabilitySpec.AsWrittenAgrees`) |
| `StabilitySpec.Settle` | src/stabilityHeuristic.cpp:197-210 | the do-while promotion loop, repeated passes until a pass changes nothing (contract: `StabilitySpec.SettleSpec`, which determines it by `StabilitySpec.SettleUnique`) |
| `StabilitySpec.Tally` | src/stabilityHeuristic.cpp:166-189 | the nested scoring loop: (white points, black points), 2 for STABLE, 1 for SEMI_STABLE (contract: `StabilitySpec.TallySet`, `StabilitySpec.TallyUnstable`, `StabilitySpec.TallyBound`) |
| `StabilitySpec.Report` | src/stabilityHeuristic.cpp:213-215 | the corrected percentage return (contract: `StabilitySpec.ReportSpec`) |
| `StabilitySpec.ReportAsWritten` | src/stabilityHeuristic.cpp:213-215 | the return as written (contract: `StabilitySpec.ReportAsWrittenSpec`) |
| `StabilitySpec.Heuristic` | src/stabilityHeuristic.cpp:192-216 | `stabilityHeuristic`: the three marking phases, the tally and the corrected return (contract: `StabilitySpec.HeuristicBound`) |
| `StabilitySpec.MarkUnstableAt` | src/stabilityHeuristic.cpp:32-38 | after marking, a square is UNSTABLE exactly when some table entry captures it; otherwise it keeps its level |
| `StabilitySpec.UnstablePhase` | src/stabilityHeuristic.cpp:193-194 | before edge marking, a square is UNSTABLE exactly when some move on the board captures it, and SEMI_STABLE otherwise |
| `StabilitySpec.MarkRunAt` | src/stabilityHeuristic.cpp:52-57 | walking from a corner marks STABLE exactly the squares of the maximal same-colour run along the axis, and changes nothing else |
| `StabilitySpec.CheckCornerAt` | src/stabilityHeuristic.cpp:41-66 | for an occupied corner, the squares of its row run and its column run become STABLE; an empty corner changes nothing |
| `StabilitySpec.MarkEdgesAt` | src/stabilityHeuristic.cpp:40-72 | edge marking makes a square STABLE exactly when it lies on the run of one of the four corners, and keeps every other level |
| `StabilitySpec.RowLine` | src/stabilityHeuristic.cpp:85-93 | the row scan finds no empty square exactly when the whole line through the piece along x is occupied |
| `StabilitySpec.ColumnLine` | src/stabilityHeuristic.cpp:102-110 | the column scan finds no empty square exactly when the whole line through the piece along y is occupied |
| `StabilitySpec.DiagonalLine` | src/stabilityHeuristic.cpp:119-135 | the two half-ray scans of a diagonal find no empty square exactly when the whole diagonal line through the piece is occupied |
| `StabilitySpec.StableByLines` | src/stabilityHeuristic.cpp:74-164 | the check fails on an empty tile, and only there; a piece is stable exactly when, on each of the four axes, a same-colour STABLE neighbour exists or the whole line is occupied |
| `StabilitySpec.StableMonotone` | src/stabilityHeuristic.cpp:79-163 | raising more squares to STABLE never makes a stable piece unstable |
| `StabilitySpec.AsWrittenAgrees` | src/stabilityHeuristic.cpp:138-162 | the loop as written agrees with the bounded loop except where it runs off the board, which happens exactly when the other tests pass, there is no anchor on the other diagonal, and no empty square lies towards (x+1, y-1) |
| `StabilitySpec.AsWrittenReadsOffBoard` | src/stabilityHeuristic.cpp:146 | on a board full of black with every level SEMI_STABLE, the piece at (1, 1) makes the loop as written read off the board, while the bounded loop finds it stable |
| `StabilitySpec.VisitPromotes` | src/stabilityHeuristic.cpp:202-207 | visiting a square only promotes, every promotion it makes passes `IsStable` in the state it leaves, and it lowers the SEMI_STABLE count by one exactly when the square is promotable |
| `StabilitySpec.SweepProgress` | src/stabilityHeuristic.cpp:198-209 | a pass only raises occupied interior SEMI_STABLE squares to STABLE, each of which passes `IsStable` in the state after the pass, and none that a state promoting from the start with nothing left to promote leaves SEMI_STABLE; `madeChange` is set exactly when the state changed, and then fewer squares are SEMI_STABLE |
| `StabilitySpec.JustifiedTrans` | src/stabilityHeuristic.cpp:198-209 | promotions justified by the state after each pass stay justified in any later, more promoted state |
| `StabilitySpec.SweepRowsQuiet` | src/stabilityHeuristic.cpp:200-209 | a pass over rows i..6 reports no change exactly when no interior square in those rows is promotable |
| `StabilitySpec.SettleSpec` | src/stabilityHeuristic.cpp:197-210 | the do-while loop ends; it only promotes occupied interior SEMI_STABLE pieces and never demotes; every piece it promotes passes `IsStable` in the final state; it stops at a state where no interior piece is promotable; and that state lies below every other state that promotes from the start and leaves nothing promotable |
| `StabilitySpec.VisitLeast` | src/stabilityHeuristic.cpp:202-207 | a visit promotes nothing that a state above it with nothing promotable leaves SEMI_STABLE |
| `StabilitySpec.SettleLeast` | src/stabilityHeuristic.cpp:197-210 | the loop's final state lies below every state that promotes from the start and leaves nothing promotable, so a cluster of pieces that only anchor each other is never promoted |
| `StabilitySpec.SettleUnique` | src/stabilityHeuristic.cpp:197-210 | a state that promotes from the start, leaves nothing promotable and lies below every other such state is the loop's result |
| `StabilitySpec.TallySet` | src/stabilityHeuristic.cpp:171-184 | each piece scores its level's points, STABLE 2, SEMI_STABLE 1, UNSTABLE 0, for its own colour: changing one square's level changes only the tally of the colour on it, by the difference in points, and on an empty square changes nothing |
| `StabilitySpec.TallyUnstable` | src/stabilityHeuristic.cpp:166-188 | with every square UNSTABLE both tallies are 0 |
| `StabilitySpec.TallyBound` | src/stabilityHeuristic.cpp:166-188 | each colour scores at most 2 points per piece of that colour, so a colour with no pieces scores nothing |
| `StabilitySpec.ReportSpec` | src/stabilityHeuristic.cpp:213-214 | the corrected result is 0 on equal points, lies in [-100, 100], is antisymmetric in the mover, and is positive exactly for the mover who leads on points |
| `StabilitySpec.ReportAsWrittenSpec` | src/stabilityHeuristic.cpp:213-215 | as written, the result is 0 on a tie, the share negated on white's turn, and the raw black points on black's turn |
| `StabilitySpec.ReportAsWrittenLeaves` | src/stabilityHeuristic.cpp:215 | black to move with 2 points against 0 gives 2 as written, where the percentage is 100 |
| `StabilitySpec.HeuristicBound` | src/stabilityHeuristic.cpp:192-216 | the corrected stability heuristic lies in [-100, 100] and is 0 on a board with no pieces |
| `StabilityHeuristic.MarkUnstablePieces` | src/stabilityHeuristic.cpp:32-38 | the in-place loop leaves the state equal to `MarkUnstable` of the table |
| `StabilityHeuristic.MarkLine` | src/stabilityHeuristic.cpp:52-57 | the run loop from a corner leaves the state equal to `MarkRun` |
| `StabilityHeuristic.CheckCorner` | src/stabilityHeuristic.cpp:41-66 | `checkCorner` leaves the state equal to `StabilitySpec.CheckCorner` |
| `StabilityHeuristic.MarkEdgesAsStable` | src/stabilityHeuristic.cpp:40-72 | the four corner checks leave the state equal to `MarkEdges` |
| `StabilityHeuristic.RowScan` | src/stabilityHeuristic.cpp:87-92 | the breaking loop reports whether row y has no empty square |
| `StabilityHeuristic.ColumnScan` | src/stabilityHeuristic.cpp:104-109 | the breaking loop reports whether column x has no empty square |
| `StabilityHeuristic.RayScan` | src/stabilityHeuristic.cpp:121-126 | the breaking diagonal loop reports whether the half-ray from the piece to the edge has no empty square |
| `StabilityHeuristic.Neighbours` | src/stabilityHeuristic.cpp:82-83 | the neighbour test is true exactly when one of the two neighbours on the axis holds the colour and is STABLE |
| `StabilityHeuristic.CheckIfPieceIsStable` | src/stabilityHeuristic.cpp:74-164 | the check returns `IsStable`: an empty-tile error, or whether all four axes hold, with the other diagonal bounded on the board |
| `StabilityHeuristic.SweepRowPass` | src/stabilityHeuristic.cpp:201-208 | one row of a pass updates the state in place and reports a change exactly as `SweepRow` does |
| `StabilityHeuristic.SweepPass` | src/stabilityHeuristic.cpp:199-209 | one pass of the loop body gives the state and `madeChange` of `Sweep` |
| `StabilityHeuristic.Promote` | src/stabilityHeuristic.cpp:197-210 | the do-while loop leaves the state equal to `Settle`, which the loop's measure shows terminates |
| `StabilityHeuristic.TallyRow` | src/stabilityHeuristic.cpp:169-185 | the inner loop adds row i's points per colour |
| `StabilityHeuristic.TallyScore` | src/stabilityHeuristic.cpp:166-189 | the nested loop returns (white points, black points) of `Tally` |
| `StabilityHeuristic.Classify` | src/stabilityHeuristic.cpp:193-210 | the three marking phases on a fresh all-SEMI_STABLE state produce the levels `Levels` describes |
| `StabilityHeuristic.StabilityHeuristic` | src/stabilityHeuristic.cpp:192-216 | the method returns the corrected heuristic of the position and only reads the board |
| `Heuristics.CoinParity` | src/coinParityHeuristic.cpp:4-11 | the coin-parity value, through the shared percentage of `StabilitySpec.Report` (contract: `Heuristics.CoinParitySpec`) |
| `Heuristics.CoinShare` | src/coinParityHeuristic.cpp:6-10 | the tie test and signed percentage of the two counts equal `StabilitySpec.Report` of them |
| `Heuristics.Corner` | src/cornerHeuristic.cpp:4-28 | the corner value: 25 times the corner difference, signed for the mover (contract: `Heuristics.CornerSpec`, `Heuristics.CornerOnly`) |
| `Heuristics.Mobility` | src/mobilityHeuristic.cpp:5-13 | the mobility value: 0 on a full board, else the share of empty squares that are not legal moves (contract: `Heuristics.MobilitySpec`) |
| `Heuristics.Composite` | src/compositeHeuristic.cpp:15-20 | the weighted sum 10, 500 (with at most 40 pieces), 80 and 50 of the four heuristics, with the corrected stability term (contract: `Heuristics.CompositeSpec`) |
| `Heuristics.Evaluate` | src/MainMenu.cpp:24-31 | the heuristic a menu entry builds its player with (contract: `Heuristics.EvaluateBound`) |
| `Heuristics.CoinParitySpec` | src/coinParityHeuristic.cpp:4-11 | 0 on equal counts; within [-100, 100]; positive exactly when the mover has more pieces; negated for white; ±100 when only one colour is on the board |
| `Heuristics.CoinParityHeuristic` | src/coinParityHeuristic.cpp:4-11 | the method returns `CoinParity` of the position |
| `Heuristics.CornerOnly` | src/cornerHeuristic.cpp:21-24 | boards that agree on the four corners get the same corner value |
| `Heuristics.CornerSpec` | src/cornerHeuristic.cpp:26-27 | the corner value is a whole multiple of 25 in [-100, 100], 0 when both colours hold equally many corners, and negated for white |
| `Heuristics.ProcessCorner` | src/cornerHeuristic.cpp:8-19 | the lambda adds one to the counter of the colour on the corner, and nothing for an empty corner |
| `Heuristics.CornerHeuristic` | src/cornerHeuristic.cpp:4-28 | the counters over the four corners give `Corner` of the position |
| `Heuristics.MobilitySpec` | src/mobilityHeuristic.cpp:11-12 | mobility lies in [0, 100] for either mover, is 0 exactly when every empty square is a legal move (including a full board), and is 100 when there are empty squares but no legal move |
| `Heuristics.EmptyRow` | src/mobilityHeuristic.cpp:8-10 | the inner loop counts row i's empty squares |
| `Heuristics.CountEmpty` | src/mobilityHeuristic.cpp:6-10 | the nested loop counts the board's empty squares |
| `Heuristics.MobilityHeuristic` | src/mobilityHeuristic.cpp:5-13 | the method returns `Mobility` of the position; the unsigned subtraction cannot wrap |
| `Heuristics.PiecesOnBoardSpec` | src/compositeHeuristic.cpp:9-12 | the piece count is 64 minus the empty squares, so between 0 and 64 |
| `Heuristics.CompositeSpec` | src/compositeHeuristic.cpp:15-20 | the composite lies within the weighted bounds of its terms; with more than 40 pieces the corner term is absent; it is 0 when every term that counts is 0 |
| `Heuristics.CompositeHeuristic` | src/compositeHeuristic.cpp:15-20 | the method returns `Composite`, evaluating the corner heuristic only with at most 40 pieces |
| `Heuristics.EvaluateBound` | src/MainMenu.cpp:24-31 | every heuristic a menu player can be built with lies in [-56000, 64000] |
| `Heuristics.EvaluateOn` | src/MainMenu.cpp:24-31 | a call of the heuristic callback returns `Evaluate` of the chosen heuristic and only reads the board |
| `MinMax.Adopt` | src/MinMaxStrategy.cpp:44-50 | the selection in the loop, fold over the replies (contract: `MinMax.AdoptSpec`) |
| `MinMax.MakeNode` | src/MinMaxStrategy.cpp:57-64 | `makeNode`: the position after the move, the move, and the heuristic of that position (contract: `MinMax.MakeNodeOn`) |
| `MinMax.Minimax` | src/MinMaxStrategy.cpp:27-55 | `minimax` with the maximising sentinel as the parameter `floor` (contract: `MinMax.MinimaxSpec`) |
| `MinMax.NextMoveFrom` | src/MinMaxStrategy.cpp:16-25 | `nextMove` with the root sentinel `floor` (contract: `MinMax.NextMoveSpec`) |
| `MinMax.NextMoveAsWritten` | src/MinMaxStrategy.cpp:16-25 | `nextMove` as written, sentinel `DBL_MIN` (contract: `MinMax.NoMoveWhenNonPositive`) |
| `MinMax.NextMove` | src/MinMaxStrategy.cpp:16-25 | `nextMove` with the evidently intended sentinel `-DBL_MAX` (contract: `MinMax.NextMoveTotal`) |
| `MinMax.AdoptSpec` | src/MinMaxStrategy.cpp:44-50 | the selection loop returns the start value when no reply reaches it, and otherwise the reply at the last index of a best score; the result reaches the start value and every reply |
| `MinMax.SelectMove` | src/MinMaxStrategy.cpp:44-50 | from a maximising sentinel, the sentinel's move survives exactly when every reply scores below it; otherwise the move of the last highest-scoring reply is selected |
| `MinMax.MinimaxMove` | src/MinMaxStrategy.cpp:52-53 | below the root, a search reports the move that led to its node |
| `MinMax.MinimaxSpec` | src/MinMaxStrategy.cpp:27-55 | the node comes back unchanged at the depth bound or with no legal move; otherwise the result is the last-best selection among the replies from the sentinel (`floor` when maximising, `DBL_MAX` when minimising), with the node's move below the root |
| `MinMax.RootMoves` | src/MinMaxStrategy.cpp:37-53 | the i-th reply at the root carries the i-th legal move, never `{-1, -1}` |
| `MinMax.NextMoveSpec` | src/MinMaxStrategy.cpp:16-25 | for any root sentinel, "No move was selected" exactly when the depth bound is 0, there is no legal move, or every reply scores below the sentinel; otherwise the move of the last highest-scoring reply |
| `MinMax.NextMoveLegal` | src/MinMaxStrategy.cpp:21-24 | for any root sentinel, a move `nextMove` returns is a key of the table, and `placePiece` accepts it |
| `MinMax.NoMoveWhenNonPositive` | src/MinMaxStrategy.cpp:20-23 | as written, with a non-zero depth bound and a legal move, if no root reply scores above 0 the search throws "No move was selected" |
| `MinMax.MinimaxFinite` | src/MinMaxStrategy.cpp:27-55 | with a heuristic and a sentinel within ±`DBL_MAX`, every node the search returns scores within ±`DBL_MAX` |
| `MinMax.NextMoveTotal` | src/MinMaxStrategy.cpp:16-25 | with the `-DBL_MAX` sentinel and a heuristic within ±`DBL_MAX`, "No move was selected" happens exactly when the depth bound is 0 or there is no legal move |
| `MinMax.MenuHeuristicsFinite` | src/MainMenu.cpp:24-31 | every heuristic the menu offers stays within ±`DBL_MAX` |
| `MinMax.IndifferentOnePly` | src/MinMaxStrategy.cpp:20-35 | with depth 1 and a heuristic that scores every position 0, any position with a legal move throws as written but yields a move with the `-DBL_MAX` sentinel |
| `MinMax.MakeNodeOn` | src/MinMaxStrategy.cpp:57-64 | a fresh copy with the move played, scored by the heuristic, is the node `MakeNode` describes |
| `MinMax.Search` | src/MinMaxStrategy.cpp:27-55 | the recursive search over copies returns the node `Minimax` describes with the `-DBL_MAX` sentinel, and changes no existing object |
| `MinMax.SearchStep` | src/MinMaxStrategy.cpp:37-51 | one pass of the loop searches the child of the k-th move in its role and adopts the reply when it is no worse |
| `MinMax.NextMoveOn` | src/MinMaxStrategy.cpp:16-25 | the method returns `NextMove` of the position, the search with the `-DBL_MAX` sentinel, and changes no existing object |
| `StrategicAi.GoFrom` | src/StrategicAi.cpp:8-17 | `go`: the dispatch on the number of legal moves, with the minimax strategy from root sentinel `floor` for more than one (contract: `StrategicAi.GoSpec`) |
| `StrategicAi.GoAsWritten` | src/StrategicAi.cpp:8-17 | `go` over the strategy as written, root sentinel `DBL_MIN` (contract: `StrategicAi.GoAsWrittenFails`) |
| `StrategicAi.Go` | src/StrategicAi.cpp:8-17 | `go` over the strategy with the corrected `-DBL_MAX` sentinel (contract: `StrategicAi.GoTotal`) |
| `StrategicAi.GoSpec` | src/StrategicAi.cpp:8-17 | for any root sentinel, "No legal moves available" exactly when there is no legal move; with one move it returns that move; with more it returns the strategy's result; any move it returns is accepted by `placePiece` |
| `StrategicAi.GoAsWrittenFails` | src/StrategicAi.cpp:14-15 | as written, with two or more legal moves, depth 1 and a heuristic that scores every position 0, `go` fails with the strategy's "No move was selected"; with the corrected sentinel it returns a move |
| `StrategicAi.GoTotal` | src/StrategicAi.cpp:8-17 | with the corrected `-DBL_MAX` sentinel, a menu heuristic and a non-zero depth, `go` fails exactly when there is no legal move; the corrected strategy never throws "No move was selected" |
| `StrategicAi.GoOn` | src/StrategicAi.cpp:8-17 | the method returns `Go`, with the minimax strategy and the corrected `-DBL_MAX` sentinel, and only reads the board |

## Left out

- The GUI, the menus, the main loop, signal handling and logging. These are drawing calls, event handling and log output outside the game logic.
- `RandomAi`. It depends on a random-number generator and is written against an older player interface.
- `src/Othello.hpp`. This revision of the header predates `Othello.cpp` and has no legal-move table. The class members are taken from `Othello.cpp` instead. The side to move at the start is not set in `Othello.cpp`; the model takes black, the usual Othello convention.
- Exceptions. Each throw becomes an error value:
  - `Outcome` for `placePiece`;
  - `Result` for the stability check, `nextMove` and `go`.
- Bounds-checked accesses and out-of-range reads.
  - The `.at()` checks in `placePiece` can never fail, because table keys and captured squares are on the board (`Rules.LegalMovesSpec`).
  - The out-of-range reads of the as-written other-diagonal loop (see Findings) exist only as the value `ReadsOffBoard` of `StabilitySpec.IsStableAsWritten`.
- IEEE-754 rounding. Heuristic values and their divisions are exact reals.
  - `DBL_MIN` and `DBL_MAX` are their exact values, 2^-1022 and (2 - 2^-52)·2^1023.
  - `(double)` casts and the `int` counters are not modelled. Neither can overflow on a 64-square board.
- `std::map`. The table is a sequence of (square, captures) pairs in increasing key order, with a linear `find`. This matches the map's order, because `calculateLegalMoves` inserts keys in increasing order (`Rules.LegalMovesSpec` proves the sequence sorted).
- The `Strategy` interface. Only `MinMaxStrategy` exists, so `StrategicAi.GoOn` uses it directly, with the depth as a parameter. The menu builds it with depth 5.
- The heuristic callback (`HeuristicFunction`, a function that takes a `const Othello &` and returns a `double`).
  - The search functions take any `Position -> real`.
  - The methods dispatch on `Heuristics.HeuristicKind`: the four heuristics the menu offers (coin parity, mobility, stability, composite).
- Node copies in `minimax`. The source copies `Node` structs by value. The model shares an `Othello` object between nodes only when it is never written again; each child gets a fresh copy through `Game.Othello.Copy`.
- StabilityHeuristic.CheckIfPieceIsStable: implements the corrected bounds on the other diagonal (`i < 8 && j >= 0`). The loop as written reads outside the array, which no Dafny method can express; it is modelled by the function `StabilitySpec.IsStableAsWritten` instead.
- MinMax.Search: uses the evidently intended maximising sentinel `-DBL_MAX`, and so do `MinMax.NextMoveOn` and `StrategicAi.GoOn`. The as-written sentinel `DBL_MIN` is modelled by the function `MinMax.NextMoveAsWritten`.
- StrategicAi.Go: delegates to the strategy with the corrected `-DBL_MAX` sentinel, and `StrategicAi.GoTotal` holds only for that sentinel. The source's `go` delegates to the `DBL_MIN` search, modelled by `StrategicAi.GoAsWritten`, which fails as `StrategicAi.GoAsWrittenFails` shows.
- Heuristics.Composite: its stability term is the corrected percentage. On black's turn the source adds 50 times the raw black points (up to 6400), outside the ±5000 that `Heuristics.CompositeSpec` and `Heuristics.EvaluateBound` allow for that term; the as-written value is `StabilitySpec.ReportAsWritten`.
- StabilityHeuristic.StabilityHeuristic: returns the corrected percentage on black's turn as well. The as-written return is modelled by `StabilitySpec.ReportAsWritten`. The composite heuristic uses the corrected stability value.

## Findings

| source | as written | input that shows it | evidently intended | confidence | as-written member | corrected member |
|---|---|---|---|---|---|---|
| src/stabilityHeuristic.cpp:146 | The "other diagonal" loop tests `x < boardSize && y >= 0`, which never change, instead of `i` and `j`. It walks towards (x+1, y-1) until it meets an empty square, and past the edge when there is none. | A board full of black pieces with every level SEMI_STABLE, checking the piece at (1, 1): the walk reaches (2, 0) and then reads (3, -1). | `i < boardSize && j >= 0`, as in the other three diagonal loops | not executed | `StabilitySpec.AsWrittenReadsOffBoard` | `StabilitySpec.StableByLines` |
| src/stabilityHeuristic.cpp:215 | On black's turn the function returns the raw `blackPoints` instead of the computed percentage. | White 0 points, black 2 points, black to move: the result is 2 where the percentage is 100. | `return othello.isBlackTurn() ? blackScore : -blackScore;` | not executed | `StabilitySpec.ReportAsWrittenLeaves` | `StabilitySpec.ReportSpec` |
| src/MinMaxStrategy.cpp:20 | The maximising sentinel is `std::numeric_limits<double>::min()`, the smallest positive double, also at line 35. A maximising node keeps no reply that scores below it. | Depth bound 1, a heuristic that scores every position 0, and any position with a legal move: every root reply scores 0, below `DBL_MIN`, so `nextMove` throws "No move was selected". | `std::numeric_limits<double>::lowest()`, that is `-DBL_MAX` | not executed | `MinMax.IndifferentOnePly` | `MinMax.NextMoveTotal` |
