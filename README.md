# Stacker, modelled in Dafny

Stacker is a browser arcade game. The play field is a grid of 8 rows of 6
cells, and each cell is empty (0) or holds a piece of a bar (1). A bar of
three cells starts on the bottom row and moves one column per tick of the
game loop. It turns around when it touches the left or right edge. When
the player presses STACK:

- except on the bottom row, every cell of the bar that has no piece directly
  below it is cut off, and the bar shrinks by that many cells;
- if nothing is left, the game is lost;
- if the bar is on the top row, the game is won and the bar's width is added
  to the score;
- otherwise the bar's width is added to the score, play moves up one row, and
  a new bar of the surviving width starts there against the left edge, moving
  right.

The model has three modules.

- `Rows` (`rows.dfy`) treats one row as a value. It holds the shifts done by
  `moveRight`/`moveLeft`, the edge tests, trimming against the row below, and
  the counting facts about filled cells.
- `Rules` (`rules.dfy`) describes the whole game state as a value. There is
  one function per state change (`AfterMoveBar`, `AfterCheckLost`,
  `AfterCheckWin`, `AfterStack`) and the page-load state `Init`. There is also
  an invariant `Inv` that every reachable state keeps, and the lemmas stating
  what each change promises.
- `Stacker` (`stacker.dfy`) is the game as the script runs it. The class
  `Game` holds the grid as a two-dimensional array changed in place, next to
  the script's module variables. Its methods `MoveBar`, `CheckLost`,
  `CheckWin`, `UpdateScore` and `OnStack` do what the script's functions do,
  loop for loop, and each is proved to produce the matching state change of
  `Rules`. `MoveRight`, `MoveLeft` and `FillFront` work on one row of the
  array in place.

The script has no separate flag for a win. `isGameOver` is set by both the
loss and the win, which then differ only in the `endGame` call. The model
records which call was made in the field `won`.

## Model

| member | source | states |
|---|---|---|
| Rows.ShiftRightCount | script.js:61-64 | shifting a row right keeps its width and loses exactly the piece in the last cell |
| Rows.ShiftLeftCount | script.js:66-69 | shifting a row left keeps its width and loses exactly the piece in the first cell |
| Rows.ShiftRightBar | script.js:61-64 | a bar clear of the right edge moves one column to the right, unchanged in width |
| Rows.ShiftLeftBar | script.js:66-69 | a bar clear of the left edge moves one column to the left, unchanged in width |
| Rows.ShiftedRight | script.js:61-64 | on a non-empty row, `pop` then `unshift(0)` keeps the width, empties the first cell and moves every other cell one column right |
| Rows.ShiftedLeft | script.js:66-69 | on a non-empty row, `shift` then `push(0)` keeps the width, empties the last cell and moves every other cell one column left |
| Rows.IsRightEdge | script.js:71-76 | on a non-empty row, the last-cell test holds exactly when one more right shift would lose a piece |
| Rows.IsLeftEdge | script.js:78-82 | on a non-empty row, the first-cell test holds exactly when one more left shift would lose a piece |
| Rows.BarEdges | script.js:71-82 | a bar touches the right edge exactly when it ends in the last column, and the left edge exactly when it starts in column 0 |
| Rows.Trimmed | script.js:142-157 | the trimmed row has the same width; each cell is cleared exactly when it was filled with an empty cell below, and kept otherwise |
| Rows.TrimCount | script.js:142-157 | trimming removes exactly as many pieces as there are overhanging cells |
| Rows.OverhangPrefix | script.js:142-148 | the loop's running count of removed cells after column `i` is the count before it plus one when column `i` overhangs |
| Rows.OverhangZeroIffSupported | script.js:142-157 | no cell overhangs, iff every filled cell is supported, iff trimming leaves the row unchanged |
| Rows.TrimmedIsSupported | script.js:142-157 | after trimming, every filled cell is supported, so trimming again changes nothing |
| Rows.Seeded | script.js:182-184 | after the fill, a cell is filled iff its column is below `barSize` or it was filled before |
| Rows.CountZeroIffBlank | script.js:151 | a row holds no piece exactly when it is all empty |
| Rows.BarCount | script.js:24 | a bar of `n` cells inside the row holds exactly `n` pieces |
| Rules.Init | script.js:16-34 | the page-load state is well formed (8 rows of 6 cells); the bottom row is active and holds a three-cell bar at column 0, and every row above it is blank |
| Rules.InitInv | script.js:16-34 | the page-load state satisfies the game invariant, is running, and has score 0 |
| Rules.AfterMoveBar | script.js:84-103 | a tick changes only the active row and the direction: the row is shifted in the bar's direction, and the direction flips exactly when the shifted row touches the edge it was heading for |
| Rules.AfterCheckLost | script.js:131-158 | the loss check changes only the active row, `barSize` and `isGameOver`; the bar never grows, and a finished game stays finished |
| Rules.AfterCheckWin | script.js:121-129 | the win check changes the state exactly when the active row is 0 and the game runs, and then it adds `barSize` to the score and ends the game as a win |
| Rules.AfterStack | script.js:165-191 | after a stack, the active row is one higher exactly when the game goes on, and the direction is then right; a finished game stays finished; no row other than the stacked one and the one above it changes |
| Rules.MoveBarInv | script.js:84-103 | a tick on a running game keeps the invariant, and the active row keeps exactly `barSize` pieces |
| Rules.MoveBarKeepsCount | script.js:87-101 | a tick whose row is empty at the edge it heads toward keeps the row's number of pieces |
| Rules.RunningBarCount | script.js:148 | while the game runs, the active row holds exactly `barSize` pieces |
| Rules.CheckLostSpec | script.js:131-158 | on the bottom row the loss check changes nothing. Elsewhere it changes exactly the overhanging cells, lowers `barSize` by their number, keeps `barSize` iff the bar is fully supported, and touches nothing but the active row, `barSize` and `isGameOver` |
| Rules.OffByOneStack | script.js:142-184 | stacking a three-cell bar one column right of the three-cell bar below, on a row between the bottom and the top, clears its last cell, scores 2, and starts a two-cell bar at column 0 of the blank row above, moving right |
| Rules.StackWhenOverIsIdentity | script.js:165-171 | once the game is over, a stack action changes nothing |
| Rules.StackOutcome | script.js:165-191 | on a running game a stack has three outcomes. If the whole bar overhangs, the game is lost with the score unchanged and the row blank. If a bar survives on row 0, the game is won and its width is scored. Otherwise its width is scored, play moves up one row, and that row holds exactly a bar of that width at column 0, moving right. In every outcome the stacked row keeps its trimmed cells (all of them on the bottom row), and no other row changes, apart from the new bar in the row above when the game goes on |
| Rules.StackInv | script.js:165-191 | a stack action keeps the game invariant |
| Rules.StackScore | script.js:160-191 | the score never decreases; a stack adds the surviving bar width unless it loses the game |
| Rules.FullySupportedStack | script.js:142-184 | a stack with every bar cell supported keeps the bar size, adds it to the score, and does not lose |
| Rules.FirstStack | script.js:165-191 | the first stack of a game scores 3 and starts a three-cell bar at the left of the second row from the bottom, moving right |
| Stacker.MoveRight | script.js:61-64 | the row, shifted in place, equals the right shift of its old contents; other rows are unchanged |
| Stacker.MoveLeft | script.js:66-69 | the row, shifted in place, equals the left shift of its old contents; other rows are unchanged |
| Stacker.FillFront | script.js:182-184 | the row after the in-place fill equals its old contents seeded with `n` pieces from the left; other rows are unchanged |
| Stacker.Game.constructor | script.js:16-34 | the new game is the page-load state and satisfies the invariant |
| Stacker.Game.MoveBar | script.js:84-103 | a tick performs exactly `AfterMoveBar` on the fields and grid, and keeps the invariant |
| Stacker.Game.UpdateScore | script.js:160-163 | the score grows by `barSize` |
| Stacker.Game.CheckWin | script.js:121-129 | the method performs exactly `AfterCheckWin` |
| Stacker.Game.CheckLost | script.js:131-158 | the column-by-column loop performs exactly `AfterCheckLost`: the trimmed row, the reduced bar size, and game over when the bar size reaches 0 |
| Stacker.Game.OnStack | script.js:165-191 | a stack performs exactly `AfterStack` and keeps the invariant |

## Left out

- `draw` and `endGame` only update the page, so they are not modelled. The end-of-game message is recorded only as the `won` field.
- `setInterval`/`clearInterval` are left out. The timer is modelled by `Game.MoveBar` being callable only while `isGameOver` is false. The 600 ms period is not modelled.
- `onPlayAgain` (a page reload) is left out. A new game is a new `Game`.
- `updateScore`'s display of the score is left out: the `scoreCounter` text and its padding to five digits.
- The event listeners that connect the STACK and PLAY AGAIN buttons are left out.
- The script keeps the grid as an array of row arrays. The model keeps it as one two-dimensional array and addresses a row by its index. The script never shares a row between two places or replaces one, so nothing observable changes.
- JavaScript `pop`/`unshift`/`shift`/`push` on an empty row would give a row `[0]`. `Rows.ShiftedRight`/`Rows.ShiftedLeft` model this. `Stacker.MoveRight`/`Stacker.MoveLeft` require a non-empty row, which every row of the 6-wide grid is.
- `Stacker.FillFront`: writing past the end of a row grows a JavaScript array. The model requires `barSize <= 6`, and `Rules.Inv` guarantees `barSize <= 3`.
- `Rows.Trimmed`, `Rows.Overhang`, `Rows.Supported`: these require the two rows to have the same width, as every pair of rows in the grid does.
- The direction is an enumeration rather than the strings `'right'`/`'left'`. The script's `moveBar` would do nothing for any other string, and no such value can arise.
- Numbers are unbounded integers. Scores never get near JavaScript's exact-integer limit: at most 3 points are added per row, 8 rows per game.
