# aigo in Dafny

A model of the core of aigo, a Go (Weiqi) engine written in Go, together with its small
tic-tac-toe package. The model covers:

- stone groups with their liberty lists, and the board that places stones, captures groups,
  keeps a Zobrist hash and tests for eyes;
- the persistent game states, with ko detection over a hash history, the end of the game and the
  winner with komi;
- five agents: the random bot, the fast random bot with its shuffled point cache, the depth-pruned
  negamax searcher, the alpha-beta searcher and Monte Carlo tree search;
- the tic-tac-toe board, game, exhaustive minimax and the minimax agent.

How the Go program is represented:

- **Boards.** A board is an arena of groups addressed by slot number (`GroupId`) and a map from
  point to `Option<GroupId>`, so Go's pointer identity of `*StoneGroup` becomes equality of slots.
  Merged and captured groups stay in the arena as garbage, as they stay on Go's heap.
  `Boards.BoardValue` and its functions (`Place`, `RemoveGroup`, `CopyOf`, ...) say what each
  operation computes. The class `Boards.Board`, whose methods run Go's loops step by step, is
  proved to compute exactly those functions.
- **Stone groups.** `Stones.StoneGroup` is a class whose methods rewrite its lists in place, as
  stones.go does (swap with the last slot, then truncate).
- **Game states.** Go never changes a game state once built, so states are values and the searches
  over them are functions.
- **The Zobrist table** is an unspecified map from (point, player) to `bv64`, and the empty-board
  hash an unspecified constant. `EvaluateTerritory` is an unspecified function of the board.
- **Komi** 7.5 is carried doubled (`KOMI2 = 15`), so every score is an integer.
- **Randomness** (`rand.Intn`, `rand.Shuffle`) is a nondeterministic choice: any index in range, or
  any sequence of swaps. The MCTS playout and the alpha-beta and pruned evaluation functions are
  parameters.
- **Panics** of the source (an out-of-range parse, a placement on an occupied tic-tac-toe cell)
  become `None` or `false` results.
- **Integers.** Coordinates are `uint16` with Go's wrap-around; `Player` and the tic-tac-toe
  `GameResult` are bytes.

Behaviour modelled as the code has it:

- `Board.Copy` does not copy the hash: a copy hashes as the empty board. Every board that
  `ApplyMove` builds therefore hashes only the stone just played and the stones it captured,
  and `GameStates.PlayHash` proves exactly that.
- `Board.Copy` walks a Go map, so the order of the copied groups is any order. `Board.Copy` is
  proved for whatever order it takes; the value function `CopyOf` fixes ascending slots.
- `add_random_child` never removes the expanded move from `unvisited_moves`.
- In the tic-tac-toe agent, the moves after which the opponent's best result is `Win` go into
  the first bucket, `winning_moves`. `TttAgent.BucketsWhenNoSafeMove` shows that this bucket is
  the only one the agent ever picks from.
- The liberty checks of the board tests compare ordered slices, so the model proves the liberty
  sets (`BoardExamples.TakeLiberty`).
- `Board.Get` returns a `*Player`, which gamestate.go compares with `Player` constants. The model
  reads these comparisons as "the point is occupied" and "the stone has that colour".
- The alpha-beta root searches each move with its own best score as its bound, so a move whose
  pruned value equals that score is kept, although the bound only shows it is no better.
  `AlphaBeta.AlphaBetaRootIsBest` proves the score and the first kept move best at every depth;
  the agent picks any kept move, as the source does.
- `NewGameOfSize(h, w)` makes `h` the board's width, and `LegalMoves` runs rows up to the width,
  both as written.

Each module names the Go file it models. `Wrappers` (Option), `Strconv` (decimal formatting and
`strconv.Atoi`) and `Seqs` (first index, duplicate-freedom) are support modules.

## Model

| member | source | states |
|---|---|---|
| `Strconv.Itoa` | move.go:50 | %d of a non-negative number is a non-empty string of digits, one digit exactly below 10 |
| `Strconv.Atoi` | point.go:29 | a parse succeeds only within int64 and never on the empty string |
| `Strconv.DigitsValueOfItoa` | move.go:50 | the digits %d writes denote the number written |
| `Strconv.AtoiOfItoa` | point.go:29 | parsing what %d wrote gives the number back, for every non-negative int64 value |
| `Players.Other` | player.go:23-29 | the result is always Black or White, and it is White exactly for Black |
| `Players.String` | player.go:12-20 | "Black" exactly for Black, "None" exactly for None, "White" for every other byte |
| `Players.GetNone` | player.go:31-33 | the byte 0 |
| `Players.GetBlack` | player.go:35-37 | the byte 1 |
| `Players.GetWhite` | player.go:39-41 | the byte 2 |
| `Players.OtherSwapsColours` | player.go:23-29 | Other swaps Black and White |
| `Players.OtherInvolution` | player.go:23-29 | Other undoes itself exactly on the two colours (Other(None) is Black) |
| `Points.Dec` | point.go:18-21 | uint16 decrement wraps: adding one back gives the argument mod 2^16 |
| `Points.Inc` | point.go:19-20 | uint16 increment wraps to 0 at 65535 |
| `Points.IndexOf` | point.go:28 | strings.Index of one character: -1 exactly when absent, otherwise the first position holding it |
| `Points.PointFromCoords` | point.go:27-36 | fails on an empty string or a non-numeric tail; else Col is 1 + the index in COLS and Row the parsed number cut to uint16 |
| `Points.PointFromLetterAndDigits` | point.go:27-36 | a letter followed by a numeral reads as that column and that row |
| `Points.Neighbors` | point.go:16-23 | the four points left, below, right and above, with uint16 wrap-around; NeighborsSymmetric, NeighborsOnGrid and NeighborsDistinct state what they are |
| `Points.NeighborsSymmetric` | point.go:16-23 | q neighbours p exactly when p neighbours q, wrap-around included |
| `Points.NeighborsOnGrid` | point.go:16-23 | for an on-grid point, the on-grid neighbours are exactly the in-board points at Manhattan distance 1 |
| `Points.NeighborsDistinct` | point.go:16-23 | the four neighbours are pairwise distinct |
| `Points.ColumnOfI` | board.go:75 | 'I' is missing from COLS, so "I5" reads as column 0, row 5 |
| `Moves.NewPlay` | move.go:19-21 | a play carries its point and only the IsPlay flag |
| `Moves.NewPass` | move.go:25-27 | a pass carries the zero point and only the IsPass flag |
| `Moves.NewResign` | move.go:31-33 | a resignation carries the zero point and only the IsResign flag |
| `Moves.String` | move.go:36-46 | the Play form for a pure play, the resign text whenever IsResign, the pass text for a pass, "Invalid" with no flag |
| `Moves.StringChessRecord` | move.go:48-54 | for a pure play, the column letter COLS[Col-1] then the decimal row; otherwise String |
| `Moves.PrintMove` | move.go:57-63 | the player's name, a space, then the record form; for a play with 1 <= Col <= 19 the text after the space reads back via PointFromCoords as the play's point |
| `Moves.ColsIndex` | board.go:75 | each column letter occurs once in COLS, so its index is its position |
| `Moves.ChessRecordRoundTrip` | move.go:48-51 | reading back a play's record form gives its point, for 1 <= Col <= 19 |
| `Stones.WithLiberty` | stones.go:67-74 | an absent point is added at the end and the list grows by one; a present one leaves the group unchanged; no duplicate is introduced |
| `Stones.WithoutLiberty` | stones.go:77-86 | an absent point leaves the group unchanged; otherwise the list shrinks by one |
| `Stones.SwapRemoveMultiset` | stones.go:82-84 | moving the last element into slot i and truncating drops exactly one copy of the element at i |
| `Stones.SwapRemoveNoDups` | stones.go:82-84 | on a duplicate-free list the swap-remove leaves no copy of the removed element |
| `Stones.WithoutLibertyLosesExactlyP` | stones.go:77-86 | the liberties lose exactly p, the former last element takes p's slot, the other slots are unchanged |
| `Stones.AppendAbsent` | stones.go:94-99 | the merged stones extend the old ones, hold exactly the stones of both, and add no duplicate |
| `Stones.AppendLiberties` | stones.go:100-107 | the merged liberties extend the old ones with exactly the other liberties that are not stones, without duplicates |
| `Stones.Merged` | stones.go:90-111 | a different colour changes nothing; otherwise stones become the union and liberties gain the other group's non-stone points, keeping sg's own |
| `Stones.SameGroupIsSetEquality` | stones.go:25-44 | for duplicate-free lists, Equal is equality of colour, stone set and liberty set |
| `Stones.Contains` | stones.go:114-121 | found exactly when e occurs; the index is the first position of e, or -1 |
| `Stones.MergeStones` | stones.go:94-99 | the stone loop computes AppendAbsent |
| `Stones.MergeLiberties` | stones.go:100-107 | the liberty loop computes AppendLiberties against the merged stones |
| `Stones.StoneGroup.constructor` | stones.go:9-13 | a group with the given colour, stones and liberties |
| `Stones.StoneGroup.NumLiberties` | stones.go:57-59 | the length of the liberty list |
| `Stones.StoneGroup.NumStones` | stones.go:62-64 | the length of the stone list |
| `Stones.StoneGroup.Copy` | stones.go:16-22 | a fresh object with the same colour and the same lists in the same order |
| `Stones.StoneGroup.Equal` | stones.go:25-44 | nil is never equal; otherwise the colours, the counts and the membership of every stone and liberty agree |
| `Stones.StoneGroup.AddLiberty` | stones.go:67-74 | errors exactly when p is already a liberty; the new group is WithLiberty of the old |
| `Stones.StoneGroup.RemoveLiberty` | stones.go:77-86 | errors exactly when p is not a liberty; the new group is WithoutLiberty of the old |
| `Stones.StoneGroup.MergeIn` | stones.go:90-111 | errors exactly on different colours; the new group is Merged of the two old ones |
| `Zobrist.NewBoardPoint` | board-point.go:9-15 | the key holds the given row, column and player |
| `Zobrist.Code` | board.go:216 | the table entry of a point and colour, 0 for a missing key as Go's map read gives; ToggleTwice shows that XOR-ing it in and out cancels, and BoardHash.Keys lists these codes for a group |
| `Zobrist.ToggleTwice` | board.go:216 | XOR-ing a code in and out restores the hash |
| `Boards.NewBoard` | board.go:20-23 | a board of the given size with no stone and the empty-board hash |
| `Boards.StoneGroupAt` | board.go:117-123 | the slot of the group a point maps to, or none; ColorAt, JoinFacts and RemoveGroupFacts state how placing and removing change it |
| `Boards.ColorAt` | board.go:127-133 | nil exactly on an empty point, otherwise the colour of the group there |
| `Boards.LiveFrom` | board.go:137-155 | the groups some point maps to, each once |
| `Boards.AllStoneGroups` | board.go:137-155 | every group some point maps to, each once |
| `Boards.MapStones` | board.go:210-212 | the listed stones map to the group, every other entry is unchanged |
| `Boards.MapStonesLoop` | board.go:210-212 | the stone-map loop computes MapStones |
| `Boards.CopyInOrder` | board.go:26-35 | the copy has the source's size, the groups in the given order and the empty-board hash |
| `Boards.CopyLoop` | board.go:26-35 | the copy loop builds exactly the groups and map of CopyInOrder |
| `Boards.CopyOf` | board.go:26-35 | the copy keeps the size and hashes as the empty board |
| `Boards.GiveLiberties` | board.go:243-252 | a removed stone gives liberties without touching the map, the hash, any colour or any stone list |
| `Boards.RemoveStone` | board.go:242-258 | one stone's removal keeps the arena's length and the removed group itself |
| `Boards.RemoveUpTo` | board.go:236-260 | removeStones after its first i stones; RemoveUpToMap, RemoveUpToLiberties and RemoveUpToHash state that exactly those stones are cleared, their codes toggled and given as liberties |
| `Boards.RemoveGroup` | board.go:236-260 | a group some member of which maps elsewhere gives the mismatch error and an unchanged board; otherwise no error |
| `Boards.AddGroup` | board.go:172-179 | the list gains the group only when absent, so it holds no group twice |
| `Boards.ScanUpTo` | board.go:185-199 | the same-colour and opposite-colour lists hold no group twice |
| `Boards.MergeFrom` | board.go:204-209 | the new group merged with the same-colour groups from the i-th on; MergeFromFacts states that it never fails on same-colour groups and yields the union of their stones, MergeFromNoDups that it keeps liberty lists duplicate-free |
| `Boards.RemoveLibFrom` | board.go:218-223 | the liberty loop leaves the map and hash alone and can only fail with the missing-liberty error |
| `Boards.CaptureFrom` | board.go:224-231 | the capture loop can only fail with the mismatch error |
| `Boards.Place` | board.go:161-168 | off the grid, or on an occupied point, the board is unchanged and the matching error is returned |
| `Boards.Join` | board.go:202-216 | the new group is appended to the arena and every older group is kept |
| `Boards.CountOffGrid` | board.go:285-304 | at most one count per corner looked at |
| `Boards.CountFriendly` | board.go:285-304 | at most one count per corner looked at |
| `Boards.IsEye` | board.go:265-312 | the eye test; EyeRule states it as a rule on neighbours and corners, and Board.IsPointAnEye proves the source's loops compute it |
| `Boards.Board.constructor` | board.go:20-23 | the object holds NewBoard |
| `Boards.Board.GetZobristHash` | board.go:323-325 | the board's hash |
| `Boards.Board.GetAllStoneGroups` | board.go:137-155 | the groups some point maps to, each once, in any order |
| `Boards.Board.Copy` | board.go:26-35 | a fresh board holding CopyInOrder for the order the map walk took |
| `Boards.Board.Equal` | board.go:39-63 | nil is never equal; otherwise sizes agree and every point's group is Equal to the other's |
| `Boards.Board.GiveLibertiesAround` | board.go:243-252 | the neighbour loop of removeStones computes GiveLiberties |
| `Boards.Board.RemoveOne` | board.go:242-258 | one turn of removeStones' loop computes RemoveStone |
| `Boards.Board.CheckGroup` | board.go:237-241 | true exactly when every stone of the group maps to it |
| `Boards.Board.RemoveStones` | board.go:236-260 | removeStones computes RemoveGroup, error included |
| `Boards.Board.ScanNeighbors` | board.go:185-199 | the neighbour scan computes ScanUpTo over the four neighbours |
| `Boards.Board.MergeAll` | board.go:204-209 | the merge loop computes MergeFrom, failing exactly where it does |
| `Boards.Board.JoinGroup` | board.go:210-216 | mapping the new group's stones and hashing p computes Join |
| `Boards.Board.RemoveLibertyFromAll` | board.go:218-223 | the liberty loop computes RemoveLibFrom, error included |
| `Boards.Board.CaptureAll` | board.go:224-231 | the capture loop computes CaptureFrom, error included |
| `Boards.Board.PlaceStone` | board.go:161-233 | PlaceStone computes Place: new board and error |
| `Boards.Board.IsPointAnEye` | board.go:265-312 | the loops compute IsEye |
| `BoardFacts.GiveLibertiesFacts` | board.go:243-252 | liberties only grow, only by the removed stone, and every other-group neighbour gains it |
| `BoardFacts.RemoveUpToMap` | board.go:253 | removing the first i stones clears exactly their map entries |
| `BoardFacts.RemoveUpToLiberties` | board.go:242-258 | during removal, groups keep their shape and their liberties only grow, by removed stones |
| `BoardFacts.RemoveStoneLiberties` | board.go:242-258 | one more removed stone keeps those facts |
| `BoardFacts.RemoveUpToHash` | board.go:256 | the hash is toggled once by each removed stone's code |
| `BoardFacts.RemoveUpToNeighbors` | board.go:243-252 | each removed stone is a liberty of every other group beside it |
| `BoardFacts.RemoveStoneNeighbors` | board.go:243-252 | one more removed stone keeps that fact |
| `BoardFacts.RemoveGroupFacts` | board.go:236-260 | error exactly on a mismatch, with the board unchanged; otherwise exactly the group's points are cleared, the hash toggles their codes, and each becomes a liberty of every other adjacent group |
| `BoardFacts.CaptureFromMap` | board.go:224-231 | the capture loop clears only stones of the listed groups and liberties only grow, by cleared points |
| `BoardFacts.CaptureFromNoneDead` | board.go:224-231 | after a successful capture loop each listed group has a liberty or is off the board |
| `BoardFacts.CaptureFromLiberties` | board.go:224-231 | every cleared point is a liberty of each surviving group beside it |
| `BoardFacts.ScanFacts` | board.go:185-199 | the scan collects exactly the empty on-grid neighbours, the same-colour groups beside p and the opposite-colour groups beside p |
| `BoardFacts.ScanLibs` | board.go:190-192 | the liberties are exactly the empty on-grid neighbours |
| `BoardFacts.ScanSame` | board.go:194-195 | the same list holds exactly the groups of colour turn beside p |
| `BoardFacts.ScanOpp` | board.go:196-197 | the opposite list holds exactly the groups of another colour beside p |
| `BoardFacts.MergeFromFacts` | board.go:204-209 | merging same-colour groups never fails and yields the union of their stones |
| `BoardFacts.RemoveLibFromFacts` | board.go:218-223 | succeeds exactly when every opposite group has p; then exactly those groups lose p |
| `BoardFacts.RemoveLibFromSucceeds` | board.go:218-223 | the loop succeeds exactly when every opposite group has p as a liberty |
| `BoardFacts.RemoveLibFromGroups` | board.go:218-223 | on success exactly the listed groups lose p and all others are unchanged |
| `BoardFacts.RemoveLibFromShapes` | board.go:218-223 | the liberty loop keeps every group's colour and stones |
| `BoardFacts.NewGroupStones` | board.go:202-209 | the merged group's stones are p and the stones of the same-colour groups beside p |
| `BoardFacts.JoinFacts` | board.go:210-216 | after joining, exactly the new group's stones map to it and the hash has p's code toggled in |
| `BoardFacts.PlaceSteps` | board.go:161-233 | Place is the scan, the merge, the join, the liberty loop and the capture loop in that order |
| `BoardFacts.LoopsKeepGroup` | board.go:218-231 | the two loops never remove or reshape the newly placed group |
| `BoardFacts.PlaceNewGroup` | board.go:202-212 | a successful placement adds one group of colour turn holding p and the same-colour neighbours' stones, all mapped to it |
| `BoardFacts.LoopsOnOpposite` | board.go:218-253 | opposite groups whose liberty lists have no duplicate lose p; none is left with no liberty; only their stones are cleared; cleared points become liberties of adjacent survivors |
| `BoardFacts.LoopsOnOppositeGroups` | board.go:218-231 | the opposite groups with duplicate-free liberty lists lose p for good, and no opposite group stays on the board without a liberty |
| `BoardFacts.LoopsTakeP` | board.go:218-223 | each opposite group whose liberty list has no duplicate ends without p as a liberty |
| `BoardFacts.LoopsLeaveNoneDead` | board.go:224-231 | each opposite group ends with a liberty or fully removed |
| `BoardFacts.LoopsOnClearedStones` | board.go:224-253 | only stones of opposite groups are cleared, and each cleared point is a liberty of every adjacent survivor |
| `BoardFacts.PlaceOpposite` | board.go:172-253 | Place fails with the missing-liberty error exactly when an opposite neighbour lacks p; on success opposite groups with duplicate-free liberty lists lose p and the other opposite-group facts hold |
| `BoardFacts.GiveLibertiesNoDups` | board.go:243-252 | giving a removed stone as a liberty keeps every liberty list duplicate-free |
| `BoardFacts.RemoveUpToNoDups` | board.go:242-258 | so does removing a group's stones one by one |
| `BoardFacts.CaptureFromNoDups` | board.go:224-231 | so does the capture loop |
| `BoardFacts.RemoveLibFromNoDups` | board.go:218-223 | so does the liberty loop's swap-removal |
| `BoardFacts.ScanLibsNoDups` | board.go:185-199 | the new stone's liberties are distinct |
| `BoardFacts.MergeFromNoDups` | board.go:204-209 | merging keeps the new group's liberty list duplicate-free |
| `BoardFacts.PlaceKeepsLibsNoDups` | board.go:161-233 | a placement, failed or not, keeps every liberty list duplicate-free |
| `BoardFacts.PlaceTakesP` | board.go:218-223 | on a board with duplicate-free liberty lists, a successful placement takes p from every opposite neighbour group |
| `BoardFacts.CountsCoverAll` | board.go:293-307 | off-grid plus friendly corners reach the number looked at exactly when every on-grid corner is friendly |
| `BoardFacts.OffGridCount` | board.go:301-305 | the off-grid count is positive exactly when some corner is off the grid |
| `BoardFacts.EyeRule` | board.go:265-312 | an eye: empty point, every on-grid neighbour friendly, and all on-grid corners friendly at the edge or at least 3 friendly corners inside |
| `BoardExamples.PlaceAlone` | board.go:161-233 | a stone with no neighbour forms a new group of its own whose liberties are its on-grid neighbours |
| `BoardExamples.CornerScan` | game_test.go:42-50 | a corner stone of an empty 9x9 board sees two liberties |
| `BoardExamples.EdgeScan` | game_test.go:52-60 | an edge stone of an empty 9x9 board sees three liberties |
| `BoardExamples.CornerAndEdgeLiberties` | game_test.go:42-66 | a corner stone has 2 liberties and an edge stone 3 |
| `BoardExamples.FirstScan` | board_test.go:157-169 | Black (3,3) on an empty 5x5 board sees its four neighbours as liberties |
| `BoardExamples.FirstStone` | board_test.go:157-169 | Black (3,3) is placed as a single-stone group |
| `BoardExamples.SecondScan` | board_test.go:157-169 | White (2,2) sees four liberties |
| `BoardExamples.SecondStone` | board_test.go:157-169 | White (2,2) is placed as the second group |
| `BoardExamples.ThirdScan` | board_test.go:170-178 | Black (3,2) meets the White group once |
| `BoardExamples.WhiteLosesOne` | stones.go:77-86 | taking (3,2) from White's liberties moves the last one into its slot |
| `BoardExamples.LibertySets` | board_test.go:169-178 | the liberty lists denote the sets the test expects |
| `BoardExamples.ThirdStone` | board_test.go:170-178 | after Black (3,2), White (2,2) keeps its group with three liberties |
| `BoardExamples.TakeLiberty` | board_test.go:157-181 | White (2,2) has liberty set {(2,1),(3,2),(2,3),(1,2)}, then {(2,1),(2,3),(1,2)} after Black (3,2) |
| `BoardCopy.LocallyConsistent` | board.go:26-35 | each listed group of a consistent board lists exactly the points that map to it |
| `BoardCopy.CopyMapOwners` | board.go:28-33 | every point of a partial copy's map is a stone of the group it maps to |
| `BoardCopy.CopyMapHolds` | board.go:28-33 | every stone of a copied group maps to its copy |
| `BoardCopy.LiveSetOfCopy` | board.go:26-35 | the copy's live groups are exactly its slots |
| `BoardCopy.CopySharesGroups` | board.go:26-35 | two points share a group in the copy exactly when they share one in the source |
| `BoardCopy.CopyFacts` | board.go:26-63 | the copy is consistent, Equal to the source, and hashes as the empty board |
| `BoardCopy.CopyOfFacts` | board.go:20-63 | the same for the ascending-order copy |
| `BoardHash.Keys` | board.go:256 | the table keys of a group's stones, one per stone in list order |
| `BoardHash.ToggleKeysAppend` | board.go:256 | toggling two key lists in turn toggles their concatenation |
| `BoardHash.ToggleKeysOfStones` | board.go:256 | toggling a group's keys is what removeStones does to the hash |
| `BoardHash.CaptureFromHash` | board.go:224-231 | a successful capture loop toggles the hash by the codes of exactly the captured stones |
| `BoardHash.CapturedAreCleared` | board.go:224-256 | the captured keys name exactly the cleared points, each with its stone's colour |
| `BoardHash.RemovalStep` | board.go:225-227 | one removed group keeps that fact |
| `BoardHash.RemovalCleared` | board.go:253 | the cleared points of a removal followed by the rest are the group's and the rest's |
| `BoardHash.RemovalColours` | board.go:256 | each captured key carries the colour its stone had |
| `BoardHash.PlaceHash` | board.go:216-256 | a successful placement toggles code(p, turn) and the codes of exactly the captured stones |
| `BoardHash.PlaceCleared` | board.go:224-256 | the captured keys of a placement name exactly its cleared points, with their colours |
| `GameResults.Winner` | gameResult.go:19-24 | Black exactly when B > W + komi, otherwise White, never None |
| `GameResults.WinningMargin2` | gameResult.go:27-30 | twice the absolute difference between B and W + komi |
| `GameResults.HalfPoints` | gameResult.go:36-38 | %.1f of a margin given in half points; HalfPointsDenotes states what the text means |
| `GameResults.HalfPointsDenotes` | gameResult.go:36-38 | the text is a numeral, a point and one digit, 5 or 0, and denotes exactly the given number of half points |
| `GameResults.String` | gameResult.go:33-39 | the result text; StringAgreesWithWinner states that it names the winner and the margin |
| `GameResults.StringAgreesWithWinner` | gameResult.go:33-39 | the text reports a Black win exactly when Winner is Black, with the margin |
| `GameResults.NoTieWithKomi` | gameResult.go:19-30 | With komi 7.5 a game never ties: White wins exactly when B <= W + 7, Black exactly when B >= W + 8, and the doubled margin is odd. |
| `GameStates.UpdateHistory` | gamestate.go:169-178 | e is appended exactly when absent, the flag says so, and no duplicate appears |
| `GameStates.ContainsHash` | gamestate.go:158-165 | found exactly when e occurs; the index is its first position, or -1 |
| `GameStates.UpdateHistoryArr` | gamestate.go:169-178 | the loop-based update computes UpdateHistory |
| `GameStates.NewGameOfSize` | gamestate.go:23-31 | an empty board of width h and height w, Black to move, no previous state, history [empty hash]; its liberty lists are duplicate-free |
| `GameStates.NewGame` | gamestate.go:18-20 | a 19x19 game whose history invariant holds |
| `GameStates.NewGameState` | gamestate.go:33-43 | the given board and turn, linked to previous by m, with the board's hash added to the history if absent |
| `GameStates.ApplyMove` | gamestate.go:55-68 | a play works on a copy and on error returns the receiver; on success the turn passes and the state links back; pass and resign keep the board |
| `GameStates.Simulated` | gamestate.go:71-108 | the scratch board of the ko and self-capture checks is well formed |
| `GameStates.ComputeGameResult` | gamestate.go:194-201 | the result carries komi 7.5 |
| `GameStates.Winner` | gamestate.go:181-192 | None while the game goes on; a colour once over |
| `GameStates.ApplyKeepsHistory` | gamestate.go:39-40 | the history stays duplicate-free, holds the current hash, and only grows, by at most one |
| `GameStates.PassKeepsHistory` | gamestate.go:63-66 | pass and resign keep the board and the history |
| `GameStates.PlayHash` | gamestate.go:58-59 | after a play the hash is the empty hash with the mover's code and the captured codes toggled, and it is in the history |
| `GameStates.LonePlayNotSelfCapture` | gamestate.go:97-108 | a play on an empty point whose neighbours are all empty, one of them on the grid, is never self-capture |
| `GameStates.ApplyKeepsLibsNoDups` | gamestate.go:55-68 | ApplyMove keeps every liberty list of the board duplicate-free, so along a game from NewGameOfSize the opposite groups of each play lose p |
| `GameStates.KoViolation` | gamestate.go:71-94 | the ko test: a play whose resulting hash is already in the history; RepeatedPlayIsKo states it |
| `GameStates.SelfCapture` | gamestate.go:97-108 | a play whose new group has no liberty on a copy of the board; LonePlayNotSelfCapture shows a play with an empty on-grid neighbour is never one |
| `GameStates.ValidMove` | gamestate.go:111-137 | the validity test; ValidPlayOnGrid and RepeatedPlayIsKo state which plays it accepts and refuses |
| `GameStates.IsOver` | gamestate.go:141-155 | the end test; ResignationEnds, TwoPassesEnd and PlayDoesNotEnd state when it holds |
| `GameStates.RepeatedPlayIsKo` | gamestate.go:71-94 | a capture-free play whose hash is already in the history violates ko and is invalid |
| `GameStates.ValidPlayOnGrid` | gamestate.go:111-137 | a valid play is on an empty on-grid point of an unfinished game |
| `GameStates.ResignationEnds` | gamestate.go:141-155 | a resignation ends the game and the other player wins |
| `GameStates.TwoPassesEnd` | gamestate.go:141-155 | two passes end the game, decided on the count with komi |
| `GameStates.PlayDoesNotEnd` | gamestate.go:141-155 | a successful play, or a pass after anything but a pass, never ends the game |
| `GameStates.RowPlaysMembers` | gamestate.go:208-214 | one row lists exactly the passing plays of its columns |
| `GameStates.RowPlaysOrder` | gamestate.go:208-214 | in increasing column order |
| `GameStates.PlaysFacts` | gamestate.go:207-215 | the grid lists exactly the passing plays, in row-major order |
| `GameStates.Legal` | gamestate.go:216-218 | the list always holds Pass and Resign |
| `GameStates.LegalMoves` | gamestate.go:204-221 | the loops compute Legal |
| `GameStates.LegalMovesListed` | gamestate.go:204-221 | the valid plays in row-major order, then Pass, then Resign |
| `GameStates.CaptureDiff` | gamestate.go:227-246 | the loops compute the stone difference for the mover |
| `GameStates.RowCountBound` | gamestate.go:231-240 | one row counts at most its points |
| `GameStates.CountBound` | gamestate.go:231-240 | the grid counts at most its points |
| `GameStates.StoneDiffBound` | gamestate.go:227-246 | the difference lies within plus or minus the number of points |
| `GameStates.PassNegatesStoneDiff` | gamestate.go:241-245 | a pass hands the turn over and negates the difference |
| `RandomBots.RowPoints` | botRandom.go:20-32 | row r's points from column 1 in order |
| `RandomBots.GridPoints` | botFastRandom.go:30-36 | rows times columns points |
| `RandomBots.GridMembers` | botFastRandom.go:30-36 | the grid holds exactly the points of the rectangle |
| `RandomBots.GridOrder` | botFastRandom.go:30-36 | in row-major order |
| `RandomBots.FilterMembers` | botRandom.go:20-32 | the filtered list holds exactly the passing points |
| `RandomBots.CandidatesMembers` | botRandom.go:20-32 | the candidates are exactly the valid plays that fill no eye of the mover |
| `RandomBots.ScanRow` | botRandom.go:21-31 | the inner loop appends the passing points of one row |
| `RandomBots.CollectCandidates` | botRandom.go:20-32 | the loops collect the passing grid points in row-major order |
| `RandomBots.RandomSelectMove` | botRandom.go:17-39 | Pass exactly with no candidate, else a play of some candidate; never Resign; every play valid and no eye |
| `RandomBots.GridOf` | botFastRandom.go:30-36 | the fill loops build the grid in row-major order |
| `RandomBots.FirstPassing` | botFastRandom.go:39-48 | a play at the first passing point, or Pass when none passes |
| `RandomBots.FastRandomBot.constructor` | botFastRandom.go:13-17 | an empty cache |
| `RandomBots.FastRandomBot.Shuffle` | botFastRandom.go:21-26 | the cache keeps its length and its multiset of points |
| `RandomBots.FastRandomBot.SelectMove` | botFastRandom.go:28-49 | an empty cache is filled once with the grid; the cache stays a permutation; the move is a play at the first qualifying cached point, or Pass |
| `DepthPruned.ScoresSymmetric` | botPruned.go:8-11 | MIN_SCORE is -MAX_SCORE |
| `DepthPruned.MaxFromIsMax` | botPruned.go:64-81 | the loop's result is at least best and every value, and equals best or some value |
| `DepthPruned.BestResult` | botPruned.go:52-82 | the plain negamax search; BestResultIsMax, BestResultBounded and BestResultAttained state its result |
| `DepthPruned.BestResultIsMax` | botPruned.go:52-82 | on an unfinished game the result is the maximum, from MIN_SCORE, of the negated child results |
| `DepthPruned.ResignValuedLowest` | botPruned.go:53-59 | resigning is valued MIN_SCORE |
| `DepthPruned.MaxFromBounded` | botPruned.go:64-81 | the loop stays within the two scores |
| `DepthPruned.BestResultBounded` | botPruned.go:52-82 | with evalFn within the scores, so is BestResult at every depth |
| `DepthPruned.ValuesBounded` | botPruned.go:64-81 | so is every child value |
| `DepthPruned.OursBounded` | botPruned.go:64-81 | so is every move's value |
| `DepthPruned.MaxFromAttained` | botPruned.go:64-81 | with no value below best, the loop ends on one of the values |
| `DepthPruned.BestResultAttained` | botPruned.go:52-82 | the result of an unfinished game is reached by some legal move |
| `DepthPruned.CollectBest` | botPruned.go:33-46 | the loop keeps exactly the moves of the maximal value |
| `DepthPruned.SelectMove` | botPruned.go:28-49 | the chosen move is legal and its value is the maximum over all legal moves |
| `DepthPruned.ChoiceMatchesBestResult` | botPruned.go:28-82 | the chosen move's value is BestResult one level up |
| `AlphaBeta.AlphaBetaResult` | botAlphabeta.go:58-108 | the pruned search; AlphaBetaWindow, AlphaBetaExact and AlphaBetaBounded state its result |
| `AlphaBeta.AbFrom` | botAlphabeta.go:72-105 | the pruned loop over the moves; AbFromWindow relates it to the plain loop |
| `AlphaBeta.AbOurs` | botAlphabeta.go:73-80 | the negated result of the child searched with the same bounds; AbOursWindow relates it to the plain value |
| `AlphaBeta.Raise` | botAlphabeta.go:86-103 | White raises only best_white, Black only best_black, and never lowers it |
| `AlphaBeta.LeavesAgree` | botAlphabeta.go:59-68 | on a finished game or at depth 0 alpha-beta gives BestResult |
| `AlphaBeta.LeafMovesAgree` | botAlphabeta.go:59-68 | a move searched to depth 0 has the same value under any bounds |
| `AlphaBeta.AbFromVersusMax` | botAlphabeta.go:70-107 | when the move values do not depend on the bounds, the pruned loop never exceeds the plain maximum, equals it while the opposing bound is MIN_SCORE, and differs only after a cut-off |
| `AlphaBeta.DepthOneAgainstPlain` | botAlphabeta.go:58-108 | one ply deep, alpha-beta agrees with the plain search except where it cuts off; this is the depth-1 case, AlphaBetaWindow gives every depth |
| `AlphaBeta.AlphaBetaBounded` | botAlphabeta.go:58-108 | with evalFn within the scores, so is every result |
| `AlphaBeta.AllAbOursBounded` | botAlphabeta.go:70-107 | so is every child value under every pair of bounds |
| `AlphaBeta.AbOursBounded` | botAlphabeta.go:70-107 | so is every move's value |
| `AlphaBeta.AbFromBounded` | botAlphabeta.go:70-107 | the loop stays within the scores |
| `AlphaBeta.NoCutWhileOpponentUnbounded` | botAlphabeta.go:85-103 | while the opponent's bound is MIN_SCORE, results within the scores never pass the pruning test, at any depth |
| `AlphaBeta.NoCutAtNode` | botAlphabeta.go:58-108 | a node entered with the opponent's bound at MIN_SCORE searches every move |
| `AlphaBeta.NoCutOverLegal` | botAlphabeta.go:72-105 | the same for its loop over the legal moves |
| `AlphaBeta.MovesAgreeWhenResultsDo` | botAlphabeta.go:73-80 | a move has the same value under both searches when its child has the same result |
| `AlphaBeta.AbFromWindow` | botAlphabeta.go:72-105 | when each move agrees with its plain value within the window, so do the pruned and the plain loops |
| `AlphaBeta.AlphaBetaWindow` | botAlphabeta.go:58-108 | at every depth and for bounds the search hands down, alpha-beta and BestResult agree once clamped into the window from the mover's bound to the negated opponent's bound |
| `AlphaBeta.WindowOverLegal` | botAlphabeta.go:72-105 | the two loops over the legal moves agree within that window |
| `AlphaBeta.LegalMovesAgree` | botAlphabeta.go:72-105 | every legal move agrees within the window, under every pair of bounds |
| `AlphaBeta.MoveAgreesOf` | botAlphabeta.go:73-80 | a move with a plain value agrees under every pair of bounds |
| `AlphaBeta.AbOursWindow` | botAlphabeta.go:73-80 | a move's pruned and plain values agree within the mover's window, its child being searched with the window turned round |
| `AlphaBeta.AlphaBetaExact` | botAlphabeta.go:58-108 | with both bounds at MIN_SCORE, alpha-beta gives exactly BestResult, at every depth |
| `AlphaBeta.RootBounds` | botAlphabeta.go:36-46 | the root raises only its own mover's bound |
| `AlphaBeta.RootFrom` | botAlphabeta.go:28-51 | the root loop; RootFromChoices, RootFromKeepsMaximal and RootFromBest state its result |
| `AlphaBeta.RootFromChoices` | botAlphabeta.go:30-53 | the best moves come from the list and are never empty for a non-empty list |
| `AlphaBeta.RootFromKeepsMaximal` | botAlphabeta.go:30-53 | with bound-independent values the loop keeps exactly the moves of the maximal value |
| `AlphaBeta.RootFromBest` | botAlphabeta.go:28-51 | at any depth, the loop's score is the greatest plain value, the first best move has it, and no move exceeds it |
| `AlphaBeta.AlphaBetaRootIsBest` | botAlphabeta.go:23-54 | at every depth the root's score is BestResult one level deeper, its first best move attains it, and no legal move exceeds it |
| `AlphaBeta.RootScoreIsBest` | botPruned.go:52-82 | a score one legal move attains and none exceeds is BestResult one level deeper |
| `AlphaBeta.MaxFromIsAttained` | botPruned.go:64-81 | the plain loop gives a value one move attains and none exceeds |
| `AlphaBeta.MaxFromAtLeast` | botPruned.go:64-81 | when every move has a value, the plain loop ends no lower than it starts |
| `AlphaBeta.CollectBestPruning` | botAlphabeta.go:30-53 | the root loop computes RootFrom |
| `AlphaBeta.SelectMove` | botAlphabeta.go:23-54 | the move is legal and among the moves the root loop keeps; AlphaBetaRootIsBest proves the first kept move best; a move kept on a tie is only known to be no better |
| `AlphaBeta.DepthZeroAgentsAgree` | botAlphabeta.go:23-54 | searching one ply below the root, alpha-beta chooses among exactly the maximal moves; AlphaBetaRootIsBest gives the score at every depth |
| `Mcts.TallyFromBump` | mcts.go:46-49 | one more win adds one to the sum of the counts |
| `Mcts.TallyFromZero` | mcts.go:18-30 | a new node's counts sum to 0 |
| `Mcts.GreaterTrans` | botMCTSAgent.go:44-50 | the cross-multiplied comparison is transitive |
| `Mcts.GreaterNotLess` | botMCTSAgent.go:44-50 | and mixes with a non-strict step |
| `Mcts.FirstBestIsFirstMax` | botMCTSAgent.go:42-52 | the final loop picks the first index whose fraction nothing beats |
| `Mcts.MCTSNode.constructor` | mcts.go:18-30 | zero wins for both colours, zero rollouts, no children, every legal move unvisited, so a child can be added |
| `Mcts.MCTSNode.RecordWin` | mcts.go:46-49 | exactly one more win for the winner and one more rollout; the counts still add up |
| `Mcts.MCTSNode.AddRandomChild` | mcts.go:33-43 | appends one fresh child for some unvisited move applied to the state; unvisited moves unchanged |
| `Mcts.MCTSNode.CanAddChild` | mcts.go:52-54 | an unvisited move remains; the constructor establishes it and AddRandomChild keeps it, which is why RunRounds never descends |
| `Mcts.MCTSNode.IsTerminal` | mcts.go:57-59 | the node's game is over; it serves only select_child's descent, which is left out |
| `Mcts.MCTSNode.WinningFrac` | mcts.go:62-64 | the pair (wins, rollouts); RecordWin updates it, and ChooseChild and SelectMove compare it by cross-multiplication |
| `Mcts.Backpropagate` | botMCTSAgent.go:36-39 | every node from the reached one to the root records the win once |
| `Mcts.PlayRound` | botMCTSAgent.go:22-40 | one round appends one expanded, played-out child under the root and adds one rollout |
| `Mcts.RunRounds` | botMCTSAgent.go:20-40 | after the loop the root has num_rounds rollouts and children, each expanded from it |
| `Mcts.ChooseChild` | botMCTSAgent.go:42-52 | the chosen move is that of the first child with the strictly greatest fraction |
| `Mcts.SelectMove` | botMCTSAgent.go:19-53 | a legal move of a root child whose win fraction no child beats, the first such |
| `TttPlayers.Other` | ttt/player.go:22-28 | always X or O |
| `TttPlayers.String` | ttt/player.go:11-20 | the mark's name; StringNames states it |
| `TttPlayers.StringNames` | ttt/player.go:11-20 | "X" exactly for X, "O" exactly for O, "None" for every other byte |
| `TttPlayers.OtherSwapsMarks` | ttt/player.go:22-28 | X and O alternate and None hands over to X |
| `TttPlayers.OtherInvolution` | ttt/player.go:22-28 | Other undoes itself exactly on the two marks |
| `TttResults.Reverse` | ttt/gameResult.go:12-21 | the result is always one of the three outcomes |
| `TttResults.ReverseOutcomes` | ttt/gameResult.go:12-21 | Loss and Win swap, Draw and every other byte read as Draw |
| `TttResults.ReverseInvolution` | ttt/gameResult.go:12-21 | reversal undoes itself exactly on the three outcomes |
| `TttResults.ReverseAntitone` | ttt/gameResult.go:5-21 | reversal turns the order Loss < Draw < Win around |
| `TttPoints.String` | ttt/point.go:31-33 | the column letter then the decimal row; PointRoundTrip and StringInjective state what it determines |
| `TttPoints.PointRoundTrip` | ttt/point.go:20-33 | reading back a point's written form gives the point, for 1 <= Col <= 19 |
| `TttPoints.StringInjective` | ttt/point.go:31-33 | distinct points have distinct written forms |
| `TttBoards.Get` | ttt/board.go:30-35 | the mark of a cell; PlaceSetsOneCell states how placing changes it |
| `TttBoards.PlaceIn` | ttt/board.go:38-47 | placing on a grid; PlaceSetsOneCell states it |
| `TttBoards.Has3InARow` | ttt/board.go:50-94 | the line test; Has3InARowIsRule states it |
| `TttBoards.PlaceSetsOneCell` | ttt/board.go:38-47 | placing succeeds exactly on an empty on-grid cell and then sets that cell and no other |
| `TttBoards.Has3InARowIsRule` | ttt/board.go:50-94 | the check holds exactly for a mark with a full row, column or diagonal, never for None |
| `TttBoards.Cell` | ttt/gamestate.go:23-24 | each of the nine positions names an on-grid cell |
| `TttBoards.CellIndex` | ttt/gamestate.go:23-24 | each on-grid cell has its position among the nine |
| `TttBoards.CellsInOrder` | ttt/gamestate.go:23-24 | increasing positions are in row-major order |
| `TttBoards.PlaceShrinksEmpty` | ttt/board.go:38-47 | a mark on an empty cell removes exactly that cell from the empty ones |
| `TttBoards.Board.constructor` | ttt/board.go:16-20 | an empty grid |
| `TttBoards.Board.Place` | ttt/board.go:38-47 | fails exactly off the grid or on a marked cell, leaving the grid; otherwise sets that one cell |
| `TttBoards.Board.DeepCopy` | ttt/board.go:97-103 | a fresh board with the same marks |
| `TttGame.NewGameState` | ttt/gamestate.go:11-18 | an empty board, X to move, no last move |
| `TttGame.Winner` | ttt/gamestate.go:60-69 | the winner; WinnerRule states it |
| `TttGame.IsOver` | ttt/gamestate.go:43-57 | the end test; IsOverRule states it |
| `TttGame.IsValidMove` | ttt/gamestate.go:36-41 | the validity test; ApplyMoveFacts and LegalMovesExactly state which cells pass |
| `TttGame.Legal` | ttt/gamestate.go:21-33 | the legal moves; LegalMovesExactly and LegalEmptyIffOver state them |
| `TttGame.ApplyMove` | ttt/gamestate.go:71-80 | a move applied to a copy; ApplyMoveFacts and ApplyMoveOn state it |
| `TttGame.BestResult` | ttt/gamestate.go:82-108 | exhaustive minimax; BestResultIsMax, BestResultIsOutcome and WinIffSomeMoveBeatsOpponent state it |
| `TttGame.WinnerRule` | ttt/gamestate.go:60-69 | X if X has a line, O if only O has, None if neither |
| `TttGame.IsOverRule` | ttt/gamestate.go:43-57 | over exactly when a mark has a line or no cell is empty |
| `TttGame.LegalFromFacts` | ttt/gamestate.go:21-41 | the scan from position k lists exactly the valid cells from k, in row-major order |
| `TttGame.LegalMovesExactly` | ttt/gamestate.go:21-41 | the legal moves are exactly the valid on-grid cells, in row-major order, none once over |
| `TttGame.LegalEmptyIffOver` | ttt/gamestate.go:21-57 | there is no legal move exactly when the game is over |
| `TttGame.LegalFromStep` | ttt/gamestate.go:26-28 | the scan appends the cell at k exactly when it is valid |
| `TttGame.GetAllLegalMoves` | ttt/gamestate.go:21-33 | the loops compute Legal |
| `TttGame.ApplyMoveFacts` | ttt/gamestate.go:71-80 | accepted exactly on an empty cell; marks it for the mover, keeps every other cell, passes the turn |
| `TttGame.ApplyMoveOn` | ttt/gamestate.go:71-80 | the receiver's board is left as it was and the copy holds the new board |
| `TttGame.MeasureDrops` | ttt/gamestate.go:82-108 | every accepted move lowers the measure, so BestResult terminates |
| `TttGame.BestFrom` | ttt/gamestate.go:97-105 | the loop's result is at least best and every value, and is best or one of them |
| `TttGame.BestResultIsMax` | ttt/gamestate.go:82-108 | a finished game scores by its winner; otherwise the result is the best of the reversed child results |
| `TttGame.BestResultIsOutcome` | ttt/gamestate.go:82-108 | every position is worth one of the three outcomes |
| `TttGame.WinIffSomeMoveBeatsOpponent` | ttt/gamestate.go:82-108 | Win exactly when already won, or some legal move leaves the opponent lost |
| `TttGame.FirstWhere` | ttt/gamestate.go:113-119 | the first accepted move, or None exactly when none is accepted |
| `TttGame.FirstInOrder` | ttt/gamestate.go:113-119 | in a row-major list, the first accepted move precedes every other accepted one |
| `TttGame.KeepWhere` | ttt/gamestate.go:126-132 | keeps exactly the accepted moves |
| `TttGame.KeepWhereInOrder` | ttt/gamestate.go:126-132 | keeping moves of a row-major list leaves them in row-major order |
| `TttGame.KeepWhereStep` | ttt/gamestate.go:129-131 | the scan appends a move exactly when it is accepted |
| `TttGame.FindWinningMove` | ttt/gamestate.go:112-120 | the first legal move after which p has won, or None exactly when none does |
| `TttGame.EliminateLosingMove` | ttt/gamestate.go:123-134 | exactly the legal moves after which the opponent cannot win at once, in order |
| `TttGame.FindTwoStepWin` | ttt/gamestate.go:137-148 | the first legal move after which the opponent has no safe reply, or None exactly when none |
| `TttGame.ImmediateWinIsWin` | ttt/gamestate.go:82-120 | a mover who can win at once wins with best play |
| `TttAgent.BucketOf` | ttt/minmaxagent.go:43-50 | the bucket of a move is decided by the opponent's best result after it |
| `TttAgent.SelectMove` | ttt/minmaxagent.go:11-67 | a legal move: the immediate win; else a safe move; else the two-step win; else from the first non-empty bucket |
| `TttAgent.SortMove` | ttt/minmaxagent.go:40-52 | one turn of the loop appends the move to its bucket only |
| `TttAgent.FromBuckets` | ttt/minmaxagent.go:37-66 | the final stage returns a legal move of the first non-empty bucket |
| `TttAgent.PickFirstNonEmpty` | ttt/minmaxagent.go:54-66 | any element of the first non-empty list |
| `TttAgent.BucketsCoverLegal` | ttt/minmaxagent.go:40-52 | the buckets split the legal moves, and an unfinished game fills at least one |
| `TttAgent.ReplyWinsAtOnce` | ttt/minmaxagent.go:23-27 | after an unsafe move the opponent's best result is Win |
| `TttAgent.ReplyAvoidsLoss` | ttt/minmaxagent.go:30-33 | an unsafe move is never a two-step win |
| `TttAgent.BucketsWhenNoSafeMove` | ttt/minmaxagent.go:37-56 | with no safe move every legal move lands in winning_moves and the other buckets are empty |
| `TttAgent.NoTwoStepWinWithoutSafeMove` | ttt/minmaxagent.go:29-33 | with no safe move there is no two-step win, so the third check never succeeds |

## Left out

- Text output: `PrintBoard`, `String` of `Board`, `GameState` and `StoneGroup`, `BytesToInt`, and
  all `log` calls.
- `EvaluateTerritory`: its body is not part of this model; it is an unspecified function returning
  the five counts.
- The Zobrist table's 64-bit values and the empty-board hash: they are generated at random, so
  the model leaves them unspecified.
- `select_child`: the UCT score uses floating-point `math.Log`, `math.Sqrt` and a temperature.
  The model proves instead that the descent loop it serves never runs, since the root can
  always add a child.
- `simulate_random_game`: a random playout, given to the MCTS model as a parameter.
- `rand.Seed` and the `IAgent` interface dispatch.
- The sharing of one history slice between sibling states that Go's `append` can cause: histories
  are immutable sequences.
- The tic-tac-toe `Move` type file is not part of this model; its one field `P` is modelled.
- The tic-tac-toe `PointFromCoords` is the same code as the board game's; `Points.PointFromCoords`
  models both.
- Floating-point fractions: `winning_frac` is a pair (wins, rollouts) compared by
  cross-multiplication, and `WinningMargin` is a doubled integer.
- Panics (an empty or non-numeric coordinate string, a tic-tac-toe placement off the grid or on a
  marked cell, a `removeStones` mismatch as an error value) are results, not aborts.
- `GameStates.LegalMoves`: requires both sides below 65535, where Go's uint16 loop counter would
  wrap and never stop.
- `GameStates.CaptureDiff`: requires both sides below 65535, for the same reason.
- `RandomBots.RandomSelectMove`: requires both sides below 65535, for the same reason.
- `DepthPruned.SelectMove`: requires both sides below 65535, because it calls LegalMoves.
- `AlphaBeta.SelectMove`: requires both sides below 65535, because it calls LegalMoves.
- `Mcts.SelectMove`: requires at least one round; with none Go dereferences a nil best move. It
  also requires both sides below 65535, because new nodes call LegalMoves.
- `TttAgent.SelectMove`: requires an unfinished game, because Go's `rand.Intn(0)` panics when
  there is no legal move.
- `Boards.CopyOf`: fixes the ascending order of groups, one of the orders Go's map walk may take;
  `Boards.Board.Copy` is proved for every order.
- `Boards.Place`: that a placement keeps the board consistent (every group lists exactly the
  points that map to it) is not proved in general; the placement facts are stated on the board
  before the move.
- `Mcts.Backpropagate`: the caller names, as a ghost sequence, the chain of nodes from the reached
  node up to the root; it is the frame of the walk along the parent pointers.
