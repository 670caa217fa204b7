# Tic-tac-toe Gameboard: a verified model of the game engine

This project models the logical engine of the `Gameboard` object in
`script.js`. The engine consists of:

- the `size` × `size` grid of cells, whose `placedBy` is empty, the player
  or the computer;
- the fields `currentTurn`, `gameStates.over` and `winner`;
- the terminal check `checkForWin` and the query `isGameBoardFull`;
- `placeMarker` and `removeMarker`;
- the exhaustive `minimax` search, and the best-move loop that appears
  twice in the source (in `setupBoard` and in the timer body of
  `placeMarker`).

The model has three modules.

- `Rules` (rules.dfy) holds the value-level rules:
  - the grid as `seq<seq<Cell>>`;
  - what it means for a side to own a row, a column or a diagonal;
  - `LineWinner` (script.js:184-207), the verdict of the row-and-column
    pass of `checkForWin`;
  - `Outcome` (script.js:166-214), the result that `checkForWin` computes,
    in its own order;
  - `BoardValue` (script.js:11);
  - lemmas about what that outcome means.
- `Search` (search.dfy) defines the value of the search:
  - `GameValue`, `ChildValue` and `Best` (script.js:242-276) are the
    game-tree value that `minimax` computes, row-major scan included;
  - `FirstBest` (script.js:113-127, and 34-48) is the move that the
    best-move loop picks;
  - lemmas prove that every value is -1, 0 or 1, that the value is the
    best child value for the side to move, and that the picked move is
    optimal.
- `Game` (gameboard.dfy) is the class `Gameboard`:
  - a `const` `array2<Cell>` updated in place, plus the three mutable
    fields;
  - a ghost field `board`, which `Valid()` ties to the array;
  - one method per operation of the source, with its loops and their
    invariants.

  The search methods really place a marker, recurse, and take it back, as
  the source does. They prove that the grid comes back unchanged and that
  the score equals `GameValue` of the entry grid.

Three behaviours of the code are easy to misread:

- **Winner priority.** Detection order matters: `checkForWin` looks at
  both diagonals first, then at row i and column i for each index i in
  turn. Within each step the player is preferred.
  - So a complete computer row 0 beats a complete player row 2
    (`EarlierRowDecides`).
  - Such boards never arise in play (`PlacementLeavesOneLineOwner`). On
    the boards that do arise, `checkForWin` names the side that owns a line
    (`WinDetection`).
- **Undo.** `removeMarker` clears only the cell; `winner` and
  `gameStates.over` are not restored.
  - They keep what the last terminal check of the search wrote.
  - So the search methods promise only that the grid is restored.
- **Turn after the reply.** The computer's timer body sets the turn to the
  player even when its move ended the game (script.js:129).
  `ComputerReply` does the same.

## Model

| member | source | states |
|---|---|---|
| Rules.BoardValue | script.js:11 | the score of a finished game is -1, 0 or 1; it is 1 exactly for a computer win and -1 exactly for a player win |
| Rules.SetCells | script.js:94 | writing a marker into cell (i, j) changes that cell and no other |
| Rules.MainDiagPrefixAll | script.js:170-174 | the running product along cells (t, t) is true after k steps iff the first k of those cells hold the side's marker |
| Rules.AntiDiagPrefixAll | script.js:176-179 | the same for the anti-diagonal cells (t, size - 1 - t) |
| Rules.RowPrefixAll | script.js:188-192 | the same for the cells of row i |
| Rules.ColPrefixAll | script.js:194-197 | the same for the cells of column i |
| Rules.LineWinnerSound | script.js:184-207 | a side that the row-and-column pass reports owns some complete row or column |
| Rules.LineWinnerComplete | script.js:184-207 | if some row or column is complete, the row-and-column pass reports a winner |
| Rules.OutcomeOfPasses | script.js:181-214 | the flags of the diagonal pass, or failing that of the row-and-column pass, give the winner and tie decision computed by `checkForWin` |
| Rules.OutcomeSound | script.js:208 | a side declared the winner owns a complete row, column or diagonal |
| Rules.OutcomeWonIffLine | script.js:166-209 | `checkForWin` declares a win exactly when some side owns a complete line |
| Rules.WinDetection | script.js:166-209 | when at most one side owns a line, side s is declared the winner iff s owns a line |
| Rules.TieDetection | script.js:210-214 | with no complete line, the result is Tie iff the board is full, and no winner iff it is not |
| Rules.EmptyBoardInProgress | script.js:9-10 | the fresh empty board has no winner, in agreement with the initial `winner` and `over` |
| Rules.EarlierRowDecides | script.js:185-208 | a grid where the player owns row 2 and the computer owns row 0 is decided for the computer: `checkForWin` is index-first, not player-first |
| Rules.PlaceThenRemove | script.js:137-143 | placing a marker in an empty cell and clearing it again gives back exactly the same grid |
| Rules.PlacementKeepsOpponentLineless | script.js:88-100 | placing a marker of s never completes a line for the other side |
| Rules.PlacementLeavesOneLineOwner | script.js:88-103 | placing into a board where nobody owns a line leaves at most one side owning one |
| Search.Pick | script.js:257 | `Math.max` for the maximiser (`Math.min` at script.js:270 for the minimiser) returns one of its arguments and bounds both |
| Search.PlacementUsesOneEmptyCell | script.js:253-255 | each placement removes exactly one cell from the set of empty cells, so the recursion terminates |
| Search.BestKeepsAcc | script.js:251-260 | the scan never ends worse, for the side to move, than the score it started from |
| Search.BestBound | script.js:251-260 | the scan's result is at least as good as the value of every empty cell not yet scanned |
| Search.BestAttained | script.js:251-260 | the scan's result is its starting score or the value of some empty cell not yet scanned |
| Search.ValueInRange | script.js:242-276 | every minimax value is -1, 0 or 1, never a sentinel |
| Search.ChildValueInRange | script.js:253-257 | every score of a trial move is -1, 0 or 1 |
| Search.ValueIsOptimal | script.js:249-275 | on an unfinished board some empty cell exists; its value equals the minimax value, and no empty cell does better for the side to move |
| Search.FirstBestUnique | script.js:121-124 | the strict `>` tie-break selects exactly one cell |
| Search.FirstBestAchievesValue | script.js:113-127 | the chosen move achieves the computer's minimax value |
| Search.WinningMoveAvailable | script.js:113-127 | when some empty cell wins at once for the computer, the chosen move has value 1 |
| Search.ScanDone | script.js:113-127 | when the loop finishes on a board with an empty cell, it has chosen a move, and that move is the first of maximal value |
| Game.Gameboard.constructor | script.js:1-30 | a new board is size by size with every cell empty, with no winner and not over, and the given side to move; that result agrees with `checkForWin` |
| Game.Gameboard.IsGameBoardFull | script.js:218-226 | returns true iff no cell is empty |
| Game.Gameboard.DiagonalOwners | script.js:168-182 | says for each side whether it owns the main diagonal or the anti-diagonal |
| Game.Gameboard.LineOwners | script.js:186-200 | says for each side whether it owns row i or column i |
| Game.Gameboard.LineScan | script.js:184-207 | reports which side owns the first complete row or column, the player preferred at that index |
| Game.Gameboard.CheckForWin | script.js:165-215 | sets `winner` to the outcome in `checkForWin`'s order and `over` to whether there is one; no cell and not the turn changes (by its frame) |
| Game.Gameboard.Put | script.js:94 | the single-cell assignment `placedBy = x`, and nothing else |
| Game.Gameboard.RemoveMarker | script.js:137-145 | clears the identified cell and no other |
| Game.Gameboard.MarkCell | script.js:89-100 | places the marker iff the cell was empty, changing only that cell |
| Game.Gameboard.HandOver | script.js:109-133 | while the game goes on the turn passes to the other side; the computer's reply falls due exactly after a player move |
| Game.Gameboard.PlaceMarker | script.js:88-134 | on an occupied cell nothing changes; on an empty one exactly that cell is set, the result is recomputed, the turn passes unless the game is over, and a computer reply is due iff the player moved and the game goes on |
| Game.Gameboard.TryMove | script.js:253-256 | place, score with minimax for the other side, and remove: the grid is restored and the score is the child's value |
| Game.Gameboard.Minimax | script.js:242-247 | restores the grid and returns the game value of the entry grid: the board's value when finished, otherwise the best over all moves; always -1, 0 or 1 |
| Game.Gameboard.ScoreMoves | script.js:249-275 | the nested loops of minimax compute the best child score for the side to move, and the grid is restored |
| Game.Gameboard.BestMove | script.js:113-127 | the loop (also at script.js:34-48) returns the first empty cell of maximal minimax score for the computer, with the grid unchanged |
| Game.Gameboard.ComputerReply | script.js:113-129 | plays the first best move into that cell only, recomputes the result and hands the turn to the player |
| Game.Gameboard.OpeningMove | script.js:32-51 | with the player to move nothing changes; with the computer to move it plays its first best move on the empty board and the player moves next |

## Left out

- Canvas rendering is not modelled; it is output only. This covers `drawGrids`, `updateGameboardView`, the canvas set-up in `setupBoard` (script.js:15-22) and the early return when no canvas exists.
- `getCell`, `distance` and `getMousePos` are not modelled. They map a pointer position to a cell through floating-point geometry. A cell is identified by its position (row, column), which is what comparing the `id` objects amounts to.
- The banner text and the `DOMContentLoaded`/`click` listeners are not modelled; they are presentation and event wiring.
- The `setTimeout` delay is not modelled. The computer's reply is the synchronous method `ComputerReply`, which a caller invokes when `PlaceMarker` reports `replyDue`.
- The random choice of the first side (`Math.random`) is replaced by a constructor parameter.
- `-Infinity` and `Infinity` are modelled by the sentinels -2 and 2. `ValueInRange` proves that no sentinel is ever returned.
- The constructor requires size > 0.
- The value of the empty 3 × 3 board is not computed: the game tree is far too large for the verifier. All properties are stated for every size.
- The truthy numbers of `checkForWin` (`*=` and `+=` on booleans) are modelled as booleans, which is how the code branches on them.
- The two branches of `minimax` (script.js:249-275) read the same with COMP/`Math.max` and PLAYER/`Math.min` swapped. They are one loop (`ScoreMoves`), parameterised by `Mover` and `Pick`.
- The two identical best-move loops (script.js:34-48 and script.js:113-127) are one method, `BestMove`.
- Positions passed to `PlaceMarker` and `RemoveMarker` must be in the grid. The source passes them cell objects taken from its own grid.
- `isGameBoardFull` is called from `placeMarker` only where the source's `&&` chain reaches it (in `HandOver`). Its result is a pure query.
- TryMove: does not state `winner` and `over` on return. The source leaves there whatever the last terminal check of the search wrote, and every caller recomputes them through `placeMarker`.
- Minimax: does not state `winner` and `over` on return. The source leaves there whatever the last terminal check of the search wrote, and every caller recomputes them through `placeMarker`.
- ScoreMoves: does not state `winner` and `over` on return. The source leaves there whatever the last terminal check of the search wrote, and every caller recomputes them through `placeMarker`.
- BestMove: does not state `winner` and `over` on return. The source leaves there whatever the last terminal check of the search wrote, and every caller recomputes them through `placeMarker`.
