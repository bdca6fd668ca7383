# Reversi engine and grid localiser, modelled in Dafny

This project models two pieces of the EDAF70 applied-AI repository and proves
properties of them.

**Reversi (`1-Reversi/`).** The rule engine `Game` is an 8 x 8 board that
is changed in place. Its operations:

- counting scores;
- toggling the side to move;
- placing discs;
- the centre-four opening test;
- the legality test, which scans the eight directions for a run of opponent
  discs closed by a disc of the side to move and can flip that run;
- move generation.

The position evaluators are corner captivity, coin parity and mobility.
They work over a dictionary board keyed by 1-based `(row, column)` squares.

The computer opponent `Minimax` is an alpha-beta search whose size is capped
by one call counter `depth` that all its calls share.

**Grid localiser (`2-Robot-Localization/.../model/`).** `Position` holds the
integer geometry of a robot pose `(x, y, heading)`:

- the bounds, wall and reachability predicates;
- the four direct neighbours;
- the inner and outer rings of the 5 x 5 window, which `updateNeighbours`
  appends to two lists.

`HMMLocalizer` lays out the state vector (one state per cell and heading),
sets the uniform prior, and builds these tables from the `Position`
predicates: the transition table, the table for the sensor reporting
nothing, and the table for a sensor reading. Its `getCurrentProb` adds up
the probabilities of one cell. The table entries are exact reals.

Files:

- `reversi_rules.dfy` (`ReversiRules`): the board as a value and the
  functions the engine is proved against: runs, brackets, flips, scores and
  move lists.
- `reversi_game.dfy` (`ReversiGame`): class `Game` over an `array2<Cell>`,
  one method per engine operation.
- `reversi_search.dfy` (`ReversiSearch`): the search as functions over
  boards, and class `Minimax` whose methods are proved equal to them.
- `reversi_heuristics.dfy` (`ReversiHeuristics`): the three evaluators.
- `robot_position.dfy` (`RobotPosition`): the pose predicates and class
  `Position` with its neighbour lists.
- `hmm_localizer.dfy` (`RobotLocalizer`): class `HMMLocalizer` with the
  state layout and the tables.

Where the code is odd, it is modelled as written and the oddity is proved as
a property:

- The adjacency list of corner (1,8) uses (3,8).
- `isReachableFrom` has its own WEST clause.
- At a leaf, the search returns the disc count of the board it was given,
  not of the simulated one.
- On a square grid, the wall branch of the transition table is never
  reached from a grid state (on a 1 x 2 grid it is).
- `getCurrentProb` adds a fixed four entries, whatever the number of
  headings.

## Model

| member | source | states |
|---|---|---|
| ReversiRules.Other | 1-Reversi/game.py:72-74 | the other side is never the same side, and X's other side is O and O's is X |
| ReversiRules.OtherInvolutive | 1-Reversi/game.py:72-74 | toggling the side twice restores it |
| ReversiRules.Place | 1-Reversi/game.py:82-84 | placing sets the chosen cell to the value and leaves every other cell as it was |
| ReversiRules.OnBoard | 1-Reversi/game.py:99-102 | the 64 cells with both coordinates in 0..7; RayBound and IndexInjective rest on it |
| ReversiRules.DirectionsAreDirections | 1-Reversi/game.py:131 | the direction list has eight distinct unit steps |
| ReversiRules.RayBound | 1-Reversi/game.py:100-102 | walking in a direction from a board cell leaves the board within seven steps |
| ReversiRules.RaysDisjoint | 1-Reversi/game.py:137-150 | scans in two different directions never meet except at the move cell |
| ReversiRules.RunEnd | 1-Reversi/game.py:139-149 | the scan along a direction stops within eight steps |
| ReversiRules.RunEndSpan | 1-Reversi/game.py:144-149 | every cell the scan passes over is an on-board opponent disc |
| ReversiRules.RunEndStops | 1-Reversi/game.py:144-149 | the scan stops at a cell that is off the board or not an opponent disc |
| ReversiRules.RunEndReadsRay | 1-Reversi/game.py:138-149 | the scan depends only on the cells of its own direction |
| ReversiRules.BracketsReadsRay | 1-Reversi/game.py:138-151 | whether a direction brackets depends only on the cells of that direction |
| ReversiRules.AnyBracketWitness | 1-Reversi/game.py:137-154 | if the move is valid, some direction brackets a run |
| ReversiRules.AnyBracketFrom | 1-Reversi/game.py:137-154 | if any direction brackets a run, the move is valid |
| ReversiRules.IsValidMove | 1-Reversi/game.py:123-155 | what the legality test returns: the cell is empty and some direction brackets a run; AnyBracketWitness, AnyBracketFrom and AfterFlipsChangesIffValid state its meaning |
| ReversiRules.IsStartingMove | 1-Reversi/game.py:116-121 | the opening test; StartingMoveIsEmptyCentre states it as an empty cell of the centre block |
| ReversiRules.StartingMoveIsEmptyCentre | 1-Reversi/game.py:116-121 | a starting move is exactly an empty cell among (3,3), (3,4), (4,3), (4,4) |
| ReversiRules.Walk | 1-Reversi/game.py:104-112 | the collected list has one entry per cell strictly between the move and the closing disc |
| ReversiRules.WalkAt | 1-Reversi/game.py:106-112 | the list is collected walking back from the closing disc towards the move |
| ReversiRules.PlaceAllWalk | 1-Reversi/game.py:113-114 | setting the collected cells one by one turns exactly the run between the move and the closing disc |
| ReversiRules.SetRunAt | 1-Reversi/game.py:113-114 | a cell changes exactly when it lies in the run, and it takes the side's disc |
| ReversiRules.FlipUpToAt | 1-Reversi/game.py:137-153 | after the scanned directions, a cell is turned exactly when one of them brackets it |
| ReversiRules.FlipUpToSpec | 1-Reversi/game.py:137-153 | the same for every cell of the board at once |
| ReversiRules.AfterFlips | 1-Reversi/game.py:133-154 | the board after the legality test with flipping: unchanged on an occupied cell, otherwise each bracketed run turned in direction order; FlipUpToSpec and AfterFlipsChanges state which cells change |
| ReversiRules.FlippedCellWasOpponent | 1-Reversi/game.py:150-153 | every flipped cell was an opponent disc on the board, and is not the move cell |
| ReversiRules.AfterFlipsChanges | 1-Reversi/game.py:104-114 | the move cell itself is not filled, and every changed cell went from an opponent disc to the side's disc |
| ReversiRules.AfterFlipsChangesIffValid | 1-Reversi/game.py:123-155 | flipping changes the board exactly when the move is valid |
| ReversiRules.ValidMoveFlipsFirstCell | 1-Reversi/game.py:144-153 | a valid move always turns at least one disc |
| ReversiRules.ChangeNeedsValidMove | 1-Reversi/game.py:144-153 | if the board changed, the move was valid |
| ReversiRules.CountOf | 1-Reversi/game.py:61-70 | counting over the first n cells gives at most n |
| ReversiRules.CountPartition | 1-Reversi/game.py:61-70 | the X, O and empty counts of the first n cells add up to n |
| ReversiRules.Score | 1-Reversi/game.py:61-70 | a side's disc count, never more than 64 |
| ReversiRules.ScoreBound | 1-Reversi/game.py:61-70 | X's and O's scores plus the empty cells make 64, so the two scores together are at most 64 |
| ReversiRules.AfterFlipsKeepsDiscCount | 1-Reversi/game.py:104-114 | flipping never adds or removes a disc |
| ReversiRules.IndexInjective | 1-Reversi/game.py:89-90 | distinct cells have distinct row-major positions |
| ReversiRules.MovesUpToMembers | 1-Reversi/game.py:86-97 | the moves listed after visiting n cells are exactly the accepted cells among those n |
| ReversiRules.MovesUpToOrdered | 1-Reversi/game.py:86-97 | the listed moves are in strictly increasing row-major order, so none is repeated |
| ReversiRules.MovesUpToSpec | 1-Reversi/game.py:86-97 | both facts together |
| ReversiRules.ValidMoves | 1-Reversi/game.py:86-97 | the list the move generator returns; ValidMovesSpec states its members, order and emptiness |
| ReversiRules.ValidMovesOnBoard | 1-Reversi/game.py:86-97 | every generated move is on the board |
| ReversiRules.ValidMovesSpec | 1-Reversi/game.py:86-97 | the generated moves are exactly the accepted cells, in row-major order with no duplicates, and all of them are empty |
| ReversiRules.InitialGridIsCentreOnEmpty | 1-Reversi/game.py:76-80 | the Othello start is the empty board with the four centre discs |
| ReversiRules.InitialCounts | 1-Reversi/game.py:33-39 | counts of X and O over the start boards, cell by cell |
| ReversiRules.InitialScores | 1-Reversi/game.py:33-39 | Othello starts with (3,3)=O, (3,4)=X, (4,3)=X, (4,4)=O and a 2-2 score; classic rules start with an empty board |
| ReversiGame.Game.constructor | 1-Reversi/game.py:11-23 | a new game has an empty board and the given side to move and flags |
| ReversiGame.Game.Copy | 1-Reversi/game.py:14-22 | a game built on a given board holds that board's cells, in a fresh array |
| ReversiGame.Game.CalcScore | 1-Reversi/game.py:61-70 | the result maps X and O to their disc counts |
| ReversiGame.Game.ChangeSide | 1-Reversi/game.py:72-74 | the side to move becomes the other side |
| ReversiGame.Game.PlaceDisc | 1-Reversi/game.py:82-84 | the board becomes the old board with one cell set |
| ReversiGame.Game.SetInitialDiscs | 1-Reversi/game.py:33-39 | the four centre discs are set under Othello rules, and nothing changes otherwise |
| ReversiGame.Game.ResetBoard | 1-Reversi/game.py:76-80 | the board becomes the starting board of the current rules |
| ReversiGame.Game.CheckIsStartingMove | 1-Reversi/game.py:116-121 | agrees with the starting-move test on the board |
| ReversiGame.Game.CollectDiscsToFlip | 1-Reversi/game.py:104-112 | the collected list is the walk back from the closing disc to the move |
| ReversiGame.Game.SetDiscs | 1-Reversi/game.py:113-114 | each listed cell takes the side's disc |
| ReversiGame.Game.FlipDiscs | 1-Reversi/game.py:104-114 | exactly the run between the move and the closing disc takes the side's disc |
| ReversiGame.Game.ScanRun | 1-Reversi/game.py:138-149 | the scan ends where the run of opponent discs ends; it reports whether any opponent disc was passed and what lies at the end |
| ReversiGame.Game.CheckDirection | 1-Reversi/game.py:137-154 | reports whether the direction brackets a run, and flips that run only when asked to |
| ReversiGame.Game.CheckIsValidMove | 1-Reversi/game.py:123-155 | returns the validity of the move; the board changes only when flipping is asked for, and then by exactly the bracketed runs |
| ReversiGame.Game.GetValidMoves | 1-Reversi/game.py:86-97 | returns the move list of the specification, with the board's cells unchanged |
| ReversiSearch.Max | 1-Reversi/search.py:33 | Python's max: the result is at least both arguments and is one of them |
| ReversiSearch.Min | 1-Reversi/search.py:54 | Python's min: the result is at most both arguments and is one of them |
| ReversiSearch.Successor | 1-Reversi/search.py:20-25 | the simulated board: the move cell holds the placed disc |
| ReversiSearch.SuccessorChanges | 1-Reversi/search.py:20-25 | apart from the move cell, the simulation only turns opponent discs of the side to move into its own |
| ReversiSearch.MaxAB | 1-Reversi/search.py:17-36 | the counter goes up; over a disc-count window the value is a disc count; the value is X's count on the incoming board, or within the window, or beta on a cutoff |
| ReversiSearch.MaxLoop | 1-Reversi/search.py:30-36 | the reply loop returns at least alpha or exactly beta, and at most beta whenever it returns |
| ReversiSearch.MinAB | 1-Reversi/search.py:38-57 | the mirror image, with O's count, and alpha on a cutoff |
| ReversiSearch.MinLoop | 1-Reversi/search.py:51-57 | the reply loop returns at most beta or exactly alpha, and at least alpha whenever it returns |
| ReversiSearch.MaxABWindow | 1-Reversi/search.py:17-36 | with alpha < beta, a call that searches replies returns a value in [alpha, beta] |
| ReversiSearch.MinABWindow | 1-Reversi/search.py:38-57 | the same for the minimising half |
| ReversiSearch.MaxABCounts | 1-Reversi/search.py:17-18 | the counter goes up by exactly one per call made; only calls below max_depth - 1 search replies |
| ReversiSearch.MaxLoopCounts | 1-Reversi/search.py:30-36 | the same accounting across the reply loop |
| ReversiSearch.MinABCounts | 1-Reversi/search.py:38-39 | the same accounting for the minimising half |
| ReversiSearch.MinLoopCounts | 1-Reversi/search.py:51-57 | the same accounting across its reply loop |
| ReversiSearch.OpenMax | 1-Reversi/search.py:18-29 | the simulated move flips for the side to move, places X and toggles the side; with no reply, or the counter at max_depth, the call is a leaf |
| ReversiSearch.OpenMin | 1-Reversi/search.py:39-50 | the same, placing O |
| ReversiSearch.Search | 1-Reversi/search.py:59-63 | the search always rates a move by a disc count and advances the counter |
| ReversiSearch.SearchIsDiscCount | 1-Reversi/search.py:59-63 | starting from the infinite window, the search always returns a disc count between 0 and 64 |
| ReversiSearch.SearchCallCount | 1-Reversi/search.py:28-29 | the counter ends at its start plus the calls made, and at most max_depth - 1 calls search replies |
| ReversiSearch.CounterSpent | 1-Reversi/search.py:28-29 | once the counter reaches max_depth, a call returns the incoming board's count without recursing |
| ReversiSearch.Minimax.constructor | 1-Reversi/search.py:13-15 | the search works on its own copy of the game, with classic rules and the counter at 0 |
| ReversiSearch.Minimax.Simulate | 1-Reversi/search.py:20-25 | the temporary board is a fresh copy holding the successor position, with the side toggled and its replies listed |
| ReversiSearch.Minimax.MaxAlphaBeta | 1-Reversi/search.py:17-36 | returns the value of the maximising function and leaves the counter where it says |
| ReversiSearch.Minimax.MaxReplies | 1-Reversi/search.py:30-36 | the reply loop agrees with its function in value and counter |
| ReversiSearch.Minimax.MinAlphaBeta | 1-Reversi/search.py:38-57 | returns the value of the minimising function and leaves the counter where it says |
| ReversiSearch.Minimax.MinReplies | 1-Reversi/search.py:51-57 | the reply loop agrees with its function in value and counter |
| ReversiSearch.Minimax.MinimaxWithPruning | 1-Reversi/search.py:59-63 | searches X's turn by maximising and O's by minimising over the infinite window, returning a disc count |
| ReversiHeuristics.DiscValue | 1-Reversi/heuristics.py:10-16 | 1 exactly for the player's disc, -1 exactly for the other disc, 0 exactly for an empty square |
| ReversiHeuristics.DiscValueSwap | 1-Reversi/heuristics.py:10-16 | valuing for the opponent negates the value |
| ReversiHeuristics.SumValuesIsNet | 1-Reversi/heuristics.py:22-23 | the summed disc values are the player's discs minus the opponent's |
| ReversiHeuristics.AdjacentValue | 1-Reversi/heuristics.py:18-24 | -33.33 times the summed disc values of the three squares next to a corner; CornerScoreSpec states what it comes to |
| ReversiHeuristics.AdjacentScore | 1-Reversi/heuristics.py:18-24 | the loop computes -33.33 times the summed disc values of the three squares |
| ReversiHeuristics.Round | 1-Reversi/heuristics.py:35 | rounds to an integer at most one half away |
| ReversiHeuristics.RoundOfInt | 1-Reversi/heuristics.py:35 | an integer rounds to itself |
| ReversiHeuristics.CornerScore | 1-Reversi/heuristics.py:26-35 | a quarter of the corner value, rounded; CornerScoreSpec, CornerScoreRange and CornerByTable state its values |
| ReversiHeuristics.EmptyCornerTableOdd | 1-Reversi/heuristics.py:24-35 | the empty-corner score is odd in the net count of adjacent discs |
| ReversiHeuristics.RoundedAdjacent | 1-Reversi/heuristics.py:24-35 | a net of 1, 2 or 3 player discs gives -8, -17 or -25, the same number of opponent discs gives 8, 17 or 25, and a net of 0 gives 0 |
| ReversiHeuristics.CornerScoreSpec | 1-Reversi/heuristics.py:26-35 | a held corner scores +25 for the player or -25 for the opponent, whatever lies next to it; an empty corner scores the table value of its adjacent net |
| ReversiHeuristics.CornerScoreRange | 1-Reversi/heuristics.py:26-35 | a corner scores one of -25, -17, -8, 0, 8, 17, 25 |
| ReversiHeuristics.CornerScoreSwap | 1-Reversi/heuristics.py:26-35 | scoring a corner for the opponent negates its score |
| ReversiHeuristics.CornerByTable | 1-Reversi/heuristics.py:26-35 | a corner's score equals the reference table of signs |
| ReversiHeuristics.CornerCaptivity | 1-Reversi/heuristics.py:37-43 | the four corners' scores added, with the adjacency lists as written; its bounds, symmetry and table form are the lemmas below |
| ReversiHeuristics.CornerCaptivityBounds | 1-Reversi/heuristics.py:37-43 | the corner captivity score lies in [-100, 100] |
| ReversiHeuristics.CornerCaptivitySwap | 1-Reversi/heuristics.py:37-43 | scoring for the opponent negates the score |
| ReversiHeuristics.CornerCaptivityByTable | 1-Reversi/heuristics.py:37-43 | the score is the sum of the four corners' reference values, with the adjacency lists as written |
| ReversiHeuristics.OneCornerExample | 1-Reversi/tests.py:10-32 | one corner held scores +25 for its holder and -25 against |
| ReversiHeuristics.TwoCornersExample | 1-Reversi/tests.py:34-68 | two corners held by X score 50; one each score 0 |
| ReversiHeuristics.OneAdjacentExample | 1-Reversi/tests.py:73-85 | one disc next to an empty corner scores -8 for its owner and 8 for the other side |
| ReversiHeuristics.ThreeAdjacentExample | 1-Reversi/tests.py:101-113 | three discs of one colour next to an empty corner score -25 for their owner and 25 for the other side |
| ReversiHeuristics.MixedAdjacentExample | 1-Reversi/tests.py:171-183 | one disc of each colour next to an empty corner score 0 |
| ReversiHeuristics.HeldCornerExample | 1-Reversi/tests.py:185-239 | a held corner scores +-25 whoever holds the squares next to it |
| ReversiHeuristics.Holding | 1-Reversi/heuristics.py:49-50 | the squares holding one disc colour number at most the board's entries |
| ReversiHeuristics.HoldingDisjoint | 1-Reversi/heuristics.py:49-50 | both colours together hold at most the board's entries |
| ReversiHeuristics.CoinParity | 1-Reversi/heuristics.py:45-51 | 100 times the disc difference over the number of entries, None where Python divides by zero; the lemmas below state when it is defined, its bounds and symmetry |
| ReversiHeuristics.CoinParityDefined | 1-Reversi/heuristics.py:47-51 | coin parity is undefined exactly on an empty board |
| ReversiHeuristics.CoinParitySwap | 1-Reversi/heuristics.py:47-51 | scoring for the opponent negates coin parity |
| ReversiHeuristics.CoinParityBounds | 1-Reversi/heuristics.py:47-51 | coin parity lies in [-100, 100] |
| ReversiHeuristics.CoinParitySingle | 1-Reversi/tests.py:244-278 | a lone X disc gives 100 for X, a lone O disc gives -100, and an empty board has no value |
| ReversiHeuristics.CoinParityTwoToOne | 1-Reversi/tests.py:256-266 | two X discs against one O disc give 100/3 for X |
| ReversiHeuristics.CoinParityEqual | 1-Reversi/tests.py:292-302 | equal disc counts give 0 |
| ReversiHeuristics.Mobility | 1-Reversi/heuristics.py:52-63 | 100 times the move difference over the move total, 0 when neither side can move; the lemmas below state its bounds, symmetry and zeros |
| ReversiHeuristics.MobilityBounds | 1-Reversi/heuristics.py:54-63 | mobility lies in [-100, 100] |
| ReversiHeuristics.MobilitySwap | 1-Reversi/heuristics.py:54-63 | swapping the two move counts negates mobility |
| ReversiHeuristics.MobilityZero | 1-Reversi/heuristics.py:54-63 | mobility is 0 exactly when both sides have as many moves |
| ReversiHeuristics.MobilityExamples | 1-Reversi/tests.py:307-342 | 9 against 3 moves gives 50, 3 against 9 gives -50, and equal counts give 0 |
| RobotPosition.Step | 2-Robot-Localization/JavaRobotLocalization/src/model/Position.java:154-160 | the step ahead keeps the heading |
| RobotPosition.StateIndex | 2-Robot-Localization/JavaRobotLocalization/src/model/Position.java:41-43 | the index of the cell's first state; StateIndicesAgree ties it to the localiser's index |
| RobotPosition.IsInBounds | 2-Robot-Localization/JavaRobotLocalization/src/model/Position.java:178-185 | x below cols and y below rows, both non-negative |
| RobotPosition.FacesWall | 2-Robot-Localization/JavaRobotLocalization/src/model/Position.java:107-120 | the four wall cases; FacesWallIffStepLeaves states them as the step ahead leaving the grid |
| RobotPosition.IsReachable | 2-Robot-Localization/JavaRobotLocalization/src/model/Position.java:138-144 | the four step cases from the earlier pose; IsReachableIsWillReachXY relates it to willReachXY |
| RobotPosition.IsReachableFrom | 2-Robot-Localization/JavaRobotLocalization/src/model/Position.java:146-152 | the four cases as written, WEST included; IsReachableFromDiffers states where it departs from isReachable |
| RobotPosition.WillReachXY | 2-Robot-Localization/JavaRobotLocalization/src/model/Position.java:154-160 | the four step cases; WillReachXYIsStep states it as the step ahead |
| RobotPosition.WillReach | 2-Robot-Localization/JavaRobotLocalization/src/model/Position.java:162-168 | the four cases under the transposed reading; WillReachIsTransposed states it |
| RobotPosition.CompareTo | 2-Robot-Localization/JavaRobotLocalization/src/model/Position.java:193-196 | same cell, whatever the headings |
| RobotPosition.Equals | 2-Robot-Localization/JavaRobotLocalization/src/model/Position.java:204-208 | same cell and same heading; EqualsImpliesCompareTo relates the two |
| RobotPosition.Ring | 2-Robot-Localization/JavaRobotLocalization/src/model/Position.java:83-100 | the cells the window scan adds to one list, in scan order; ImmediateRingMembers and OuterRingMembers state its members |
| RobotPosition.DirectNeighbours | 2-Robot-Localization/JavaRobotLocalization/src/model/Position.java:53-74 | at most four neighbours, all in bounds |
| RobotPosition.DirectNeighboursMembers | 2-Robot-Localization/JavaRobotLocalization/src/model/Position.java:53-74 | the list holds exactly the in-bounds cells one step away, each with the heading of that step |
| RobotPosition.DirectNeighboursAtLeastTwo | 2-Robot-Localization/JavaRobotLocalization/src/model/Position.java:53-74 | a cell of a grid at least 2 x 2 has at least two neighbours |
| RobotPosition.RowRingMembers | 2-Robot-Localization/JavaRobotLocalization/src/model/Position.java:85-98 | one row of the window contributes exactly its ring cells, with the position's heading |
| RobotPosition.WindowRingMembers | 2-Robot-Localization/JavaRobotLocalization/src/model/Position.java:84-99 | the rows visited so far contribute exactly their ring cells |
| RobotPosition.ImmediateRingMembers | 2-Robot-Localization/JavaRobotLocalization/src/model/Position.java:83-100 | the immediate ring is exactly the in-bounds cells at squared distance 1 or 2, with the position's heading |
| RobotPosition.OuterRingMembers | 2-Robot-Localization/JavaRobotLocalization/src/model/Position.java:83-100 | the outer ring is exactly the in-bounds cells at squared distance 4, 5 or 8, with the position's heading |
| RobotPosition.RingsDisjoint | 2-Robot-Localization/JavaRobotLocalization/src/model/Position.java:83-100 | no cell is on both rings |
| RobotPosition.RingsExcludeOwnCell | 2-Robot-Localization/JavaRobotLocalization/src/model/Position.java:83-100 | a position never lists its own cell |
| RobotPosition.Position.constructor | 2-Robot-Localization/JavaRobotLocalization/src/model/Position.java:18-23 | a new position has the given pose and empty neighbour lists |
| RobotPosition.Position.UpdateNeighbours | 2-Robot-Localization/JavaRobotLocalization/src/model/Position.java:83-100 | each list becomes the old list followed by its ring; nothing is cleared |
| RobotPosition.IsReachableIsWillReachXY | 2-Robot-Localization/JavaRobotLocalization/src/model/Position.java:138-144 | `p.isReachable(pt)` holds exactly when `pt.willReachXY(p)` holds |
| RobotPosition.WillReachXYIsStep | 2-Robot-Localization/JavaRobotLocalization/src/model/Position.java:154-160 | willReachXY holds exactly for the cell one step ahead in a compass heading, whatever the target's heading |
| RobotPosition.IsReachableFromDiffers | 2-Robot-Localization/JavaRobotLocalization/src/model/Position.java:146-152 | isReachableFrom agrees with isReachable except when the earlier pose heads WEST |
| RobotPosition.WillReachIsTransposed | 2-Robot-Localization/JavaRobotLocalization/src/model/Position.java:162-168 | willReach is willReachXY with the two coordinates swapped |
| RobotPosition.EqualsImpliesCompareTo | 2-Robot-Localization/JavaRobotLocalization/src/model/Position.java:193-208 | equals implies compareTo, and equals is equality of the whole pose |
| RobotPosition.FacesWallIffStepLeaves | 2-Robot-Localization/JavaRobotLocalization/src/model/Position.java:107-120 | on the grid and with a compass heading, a pose faces a wall exactly when the step ahead leaves the grid |
| RobotPosition.PositionExamples | 2-Robot-Localization/JavaRobotLocalization/src/model/PositionTest.java:31-61 | on 8 x 8: the neighbours of (0,0) are (0,1) SOUTH then (1,0) EAST; (3,3) has four; (0,0) NORTH faces a wall; (-1,-1) is out of bounds; (1,1) NORTH reaches (1,0) |
| RobotPosition.InteriorRingSizes | 2-Robot-Localization/JavaRobotLocalization/src/model/PositionTest.java:108-181 | two or more cells from every edge, the immediate ring has 8 cells and the outer ring 16 |
| RobotPosition.CornerRingSizes | 2-Robot-Localization/JavaRobotLocalization/src/model/PositionTest.java:76-106 | at the corner (0,0) of a grid at least 3 x 3, the immediate ring has 3 cells and the outer ring 5 |
| RobotLocalizer.StateOfIndex | 2-Robot-Localization/JavaRobotLocalization/src/model/HMMLocalizer.java:98-113 | the state at index head * (i * cols + j) + h is cell (i, j) with heading h |
| RobotLocalizer.StateIndexBounds | 2-Robot-Localization/JavaRobotLocalization/src/model/HMMLocalizer.java:99-110 | every grid state's index lies inside the state vector |
| RobotLocalizer.StateOfOnGrid | 2-Robot-Localization/JavaRobotLocalization/src/model/HMMLocalizer.java:98-113 | every index of the vector holds a grid cell with a heading below head |
| RobotLocalizer.StateIndexInjective | 2-Robot-Localization/JavaRobotLocalization/src/model/HMMLocalizer.java:98-113 | distinct cell and heading pairs occupy distinct indices |
| RobotLocalizer.HMMLocalizer.StateIndicesAgree | 2-Robot-Localization/JavaRobotLocalization/src/model/HMMLocalizer.java:277-279 | the localiser's index of a cell is the one the position computes for itself |
| RobotLocalizer.HMMLocalizer.GetStateIndex | 2-Robot-Localization/JavaRobotLocalization/src/model/HMMLocalizer.java:277-279 | for a grid cell and a positive number of headings, the cell's states lie inside the state vector |
| RobotLocalizer.HMMLocalizer.constructor | 2-Robot-Localization/JavaRobotLocalization/src/model/HMMLocalizer.java:40-51 | the states are laid out, the prior is uniform, and T is the transition table of those states |
| RobotLocalizer.HMMLocalizer.InitForwardFiltering | 2-Robot-Localization/JavaRobotLocalization/src/model/HMMLocalizer.java:98-113 | every index of the vector holds its state, and every prior entry is 1 / (rows * cols * head) |
| RobotLocalizer.HMMLocalizer.InitTransitionMatrix | 2-Robot-Localization/JavaRobotLocalization/src/model/HMMLocalizer.java:120-146 | every entry is the transition probability between its two states |
| RobotLocalizer.HMMLocalizer.InitObservationMatrix | 2-Robot-Localization/JavaRobotLocalization/src/model/HMMLocalizer.java:155-167 | each cell holds 1 - (0.1 + 0.05 * immediate ring size + 0.025 * outer ring size) |
| RobotLocalizer.HMMLocalizer.UpdateObservationMatrix | 2-Robot-Localization/JavaRobotLocalization/src/model/HMMLocalizer.java:179-203 | the reading's lists grow by its rings, and each cell holds 0.025 if the outer list names it, else 0.05 if the immediate list does, else 0.1 at the reading, else 0 |
| RobotLocalizer.HMMLocalizer.UpdateCell | 2-Robot-Localization/JavaRobotLocalization/src/model/HMMLocalizer.java:184-200 | one cell gets its value, with later writes winning, and no other cell changes |
| RobotLocalizer.HMMLocalizer.GetCurrentProb | 2-Robot-Localization/JavaRobotLocalization/src/model/HMMLocalizer.java:331-338 | None exactly when one of the four reads from the cell's first state falls outside f (where Java throws ArrayIndexOutOfBoundsException); otherwise the sum of those four entries |
| RobotLocalizer.Quotient | 2-Robot-Localization/JavaRobotLocalization/src/model/HMMLocalizer.java:131-137 | a quotient: times a non-zero divisor it gives back the dividend |
| RobotLocalizer.Transition | 2-Robot-Localization/JavaRobotLocalization/src/model/HMMLocalizer.java:120-146 | entry T[i][j] as the branches of the loop body compute it; TransitionOnGrid states its values between grid states |
| RobotLocalizer.Observation | 2-Robot-Localization/JavaRobotLocalization/src/model/HMMLocalizer.java:179-203 | entry (i, j) of the reading table with later writes winning; ObservationIsSensorModel states its values by distance |
| RobotLocalizer.NothingProb | 2-Robot-Localization/JavaRobotLocalization/src/model/HMMLocalizer.java:155-167 | entry (i, j) of the nothing table from the ring sizes; NothingProbExamples gives its values |
| RobotLocalizer.TransitionOnGrid | 2-Robot-Localization/JavaRobotLocalization/src/model/HMMLocalizer.java:120-146 | between grid states, T is 0 unless the second is one step ahead of the first; then it is 0.7 for the same heading and 0.3 / (len - 1) otherwise, with len >= 2 |
| RobotLocalizer.TransitionWallRowZero | 2-Robot-Localization/JavaRobotLocalization/src/model/HMMLocalizer.java:129-131 | on a square grid, a state facing a wall has an all-zero row, so the 1 / len branch is never reached |
| RobotLocalizer.TransitionWallOffSquare | 2-Robot-Localization/JavaRobotLocalization/src/model/HMMLocalizer.java:127-131 | on a grid of one row and two columns, a state facing a wall still reaches a grid state, and its entry is 1 / len = 1 |
| RobotLocalizer.TransitionMassInterior | 2-Robot-Localization/JavaRobotLocalization/src/model/HMMLocalizer.java:120-146 | away from the edges, the four headings of the cell ahead share a total of exactly 1 |
| RobotLocalizer.ObservationIsSensorModel | 2-Robot-Localization/JavaRobotLocalization/src/model/HMMLocalizer.java:179-203 | for a fresh reading: 0.1 at the reading, 0.05 at squared distance 1 or 2, 0.025 at 4, 5 or 8, and 0 elsewhere |
| RobotLocalizer.NothingProbExamples | 2-Robot-Localization/JavaRobotLocalization/src/model/HMMLocalizer.java:155-167 | away from the edges the sensor reports nothing with probability 0.1, and in a corner with 0.625 |
| RobotLocalizer.CurrentProbUniform | 2-Robot-Localization/JavaRobotLocalization/src/model/HMMLocalizer.java:331-338 | with four headings and the uniform prior, a cell has probability 4 / size, and the four entries are its own four states |
| RobotLocalizer.CurrentProbOverreach | 2-Robot-Localization/JavaRobotLocalization/src/model/HMMLocalizer.java:331-338 | with fewer than four headings, the summed entries reach into the next cell's states |

## Left out

- Kivy user interface, window and image handling, and console output (`print`, ANSI colours): I/O, not logic.
- `set_rules`, `set_initial_sides`, `set_opponent_type`, `set_opponent_difficulty`, and the fields `player_side`, `opponent_type`, `opponent_difficulty` and `move_count`: plain field setters the engine's logic never reads.
- A board cell holding any string other than `'X'` or `'O'` is modelled as empty, which is how every test in the engine treats it.
- ReversiGame.Game.GetValidMoves: states that the board's cells are unchanged through a ghost copy of the board kept equal to the array, not through `unchanged(board)`. The legality test it calls may write the array.
- `flip_discs` and `check_is_valid_move` are split into helper methods for each loop (collecting, setting, scanning, one direction). The scan passes the run's length as a ghost parameter.
- ReversiHeuristics.Mobility: modelled over the two move counts. The `game2` engine that counts the moves and the write `game.is_initial = False` are not part of this model.
- The evaluators' Python floats are exact reals, and `round` is exact rounding. No input reaches a .5 tie.
- The adjacency list of corner (1,8) is kept as written, including (3,8).
- ReversiSearch.Minimax.constructor: takes the `Game` to search and the side to move. The player side and opponent type it copies are never read by the search.
- Deep copies in the search are fresh `Game` objects. That the caller's board is never modified follows from each simulation working on a fresh array.
- RobotPosition.Position: the neighbour lists hold `Pose` values rather than `Position` objects, so aliasing between list entries is not modelled.
- `getEuclideanDistance` is modelled as squared integer distance. It is only compared against 2 and 3 on integer offsets.
- RobotLocalizer.HMMLocalizer.InitTransitionMatrix: the call to `current.updateNeighbours` inside the loop only grows the lists of a state object that the table never reads. With states held as values, it is left out.
- RobotLocalizer.Quotient: a zero divisor gives 0, where Java's double division gives an infinity. On a square grid that branch is never reached (see TransitionOnGrid).
- RobotLocalizer.TransitionOnGrid: assumes `rows == cols`. States are built with x below `rows`, but bounds test x against `cols`.
- Java `int` overflow in the index arithmetic is not modelled; integers are unbounded.
- `forwardFiltering`, `updateEstimate`, `update`, `printDistance`, `getOrXY` and `getTProb`: floating-point filtering and console output.
- Grid.java and Sensor.java (random robot moves and sensor draws) are not part of this model. Their deterministic geometry is covered by `Position`.
- Pair.java is not part of this model; it holds two values and has no behaviour.
- The environment module's move selection and opening-move counting are not part of this model; they are tied to UI state.
