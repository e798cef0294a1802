# Animal match game: starting-board generator

A Dafny model of the board generator of a match-three game. The board is a flat,
row-major sequence of `GRID_SIZE * GRID_SIZE` emoji symbols. `generateBoard` fills
it cell by cell in index order. For each cell it draws a random symbol from the
palette and draws again while the symbol would complete either of two runs:

- a horizontal run with the two cells to its left (only when the cell's column is at least 2);
- a vertical run with the two cells above it (only when the cell's row is at least 2).

The model proves four things:

- The finished board holds no run of three anywhere, even though each cell checks only its own neighbourhood.
- The retry loop can always succeed.
- Every cell comes from the palette.
- The random draws fully determine the board.

Files:

- `config.dfy` (module `Config`): the grid side, the six-emoji palette, and what makes a palette usable.
- `board.dfy` (module `Board`): cells addressed by (row, column), and the predicate `NoRun`. `NoRun` says that no horizontal or vertical window of three cells holds one symbol three times.
- `game_logic.dfy` (module `GameLogic`): the two rejection checks and the lemmas connecting them to `NoRun`. It also holds the generator, written against an injected supply of random draws, and a variant that picks any accepted symbol.

Modelling choices:

- `Math.floor(Math.random() * animalEmojis.length)` becomes one element of `draws: seq<nat>`. This is a palette index below `|palette|`, the range the expression produces.
- The TypeScript `generateBoard` keeps drawing forever if it has to. The model has only finitely many draws, so it returns `OutOfDraws` when they run out. `RanOutAfter` states exactly when this happens, and `RanOutOnlyIfIndexAvoided` shows it can only happen when the remaining draws never once produce some acceptable palette index.
- `GenerateBoardByChoice` replaces the random draw with a nondeterministic choice (`:|`) among the accepted symbols. With a palette of at least three entries, all distinct, this version always fills the whole board.
- `Math.floor(i / GRID_SIZE)` and `i % GRID_SIZE` are applied only to non-negative indices. On those, they agree with Dafny's `/` and `%`.
- Symbols are strings. The palette's emojis are written as `\U{...}` escapes.

## Model

| member | source | states |
|---|---|---|
| `Config.ShippedConfigIsGood` | constants/config.ts:3-5 | The shipped side length (6) is at least 3, and the shipped palette holds six pairwise distinct emojis. |
| `GameLogic.RowColOf` | app/utils/gameLogic.ts:14-15 | Index `r * g + c` (with `c < g`) has row `r` and column `c` under the floor division and remainder used for `row` and `col`. |
| `GameLogic.CompletesRowRun` | app/utils/gameLogic.ts:17-20 | The definition is the source's horizontal condition (`col >= 2` and the two cells to the left equal the candidate). Its contract gives that condition a meaning: it holds exactly when appending the candidate creates a horizontal window of three equal cells that ends at the new cell and lies inside one row. |
| `GameLogic.CompletesColumnRun` | app/utils/gameLogic.ts:22-29 | The definition is the source's vertical condition (`row >= 2` and the cells one and two rows above equal the candidate). Its contract states it holds exactly when appending the candidate creates a vertical window of three equal cells ending at the new cell. |
| `GameLogic.Accepted` | app/utils/gameLogic.ts:12-29 | The definition is the value of `isValid` after both checks: it starts true and only the two checks set it false. Its contract states that a candidate is accepted exactly when appending it creates neither kind of window ending at the new cell. `AcceptedIffNoRunExtends` and `Forbidden` build on this. |
| `GameLogic.Forbidden` | app/utils/gameLogic.ts:12-29 | For each cell, the checks reject exactly the symbols in a set of at most two: at most one from the left-hand check and at most one from the check above. |
| `GameLogic.NoRunIffByIndex` | app/utils/gameLogic.ts:14-29 | The index form of "no run" is equivalent to the (row, column) form `NoRun`, in both directions. In index form, no `i` with `i % g >= 2` has `board[i] == board[i-1] == board[i-2]`, and no `i` with `i / g >= 2` has `board[i] == board[i-g] == board[i-2g]`. So the `col >= 2` guard keeps the horizontal check inside one row. |
| `GameLogic.AcceptedIffNoRunExtends` | app/utils/gameLogic.ts:12-29 | Let the board built so far have no run. A candidate leaves `isValid` true after both checks exactly when appending it still leaves no run. Both directions are proved: the local checks are sufficient and they are necessary. |
| `GameLogic.CandidateExists` | app/utils/gameLogic.ts:10-30 | With a palette of at least three entries, all distinct, some palette symbol passes both checks whatever cells are already placed, so the retry loop has a way out. |
| `GameLogic.DrawnInOrderExtend` | app/utils/gameLogic.ts:4-32 | Pushing the first accepted draw onto the board keeps every earlier cell, and the draw that produced it, unchanged. Cells are only appended. |
| `GameLogic.DrawnInOrderPrefix` | app/utils/gameLogic.ts:6-33 | Every prefix of a board filled from the draws was itself filled from the same draws, cell by cell. |
| `GameLogic.DrawsDetermineBoard` | app/utils/gameLogic.ts:6-34 | Two boards filled from the same draws agree: the shorter is a prefix of the longer, and both consumed the same draws. So the random source alone determines the board. |
| `GameLogic.RanOutOnlyIfIndexAvoided` | app/utils/gameLogic.ts:10-12 | With a palette of at least three entries, all distinct, generation can stall on a cell only if, from the first draw spent on that cell onward, the draws never once produced some palette index whose symbol passes both checks for that cell. |
| `GameLogic.GenerateBoard` | app/utils/gameLogic.ts:3-35 | On success, the result has `g * g` cells and every cell is in the palette. It has no horizontal or vertical run of three. Each cell is the first draw after the previous cell's draw that passes both checks. If the draws run out, a partial board exists that is short of `g * g` cells, and every remaining draw was rejected for its next cell. |
| `GameLogic.GenerateBoardByChoice` | app/utils/gameLogic.ts:6-34 | If each retry loop ends on some accepted symbol, then for any side length and any palette of at least three entries, all distinct, the fill ends with a full board. Every cell of that board is from the palette, and the board has no run. |
| `GameLogic.GenerateAnimalBoard` | app/utils/gameLogic.ts:1-35 | With the shipped 6 by 6 grid and animal palette, a generated board has 36 cells, all of them animal emojis, and holds no run of three. Each cell is the first accepted draw after the previous cell's draw. If the draws run out, generation stalled on a partial board, every remaining draw was rejected for its next cell, and some animal index whose emoji passes both checks for the stalled cell was never drawn again after the stall. |

## Left out

- The probability distribution of `Math.random()`: draws are an arbitrary injected sequence, not uniform random values. How likely a draw is to be accepted is not modelled, apart from the bound that at most two symbols are rejected per cell.
- The unbounded retry: the model consumes a finite sequence of draws and reports `OutOfDraws` where `generateBoard` would keep drawing.
- `TILE_SIZE` (constants/config.ts:7): a floating-point division of the device window width, which is platform I/O.
- `TASK_GOAL` (constants/config.ts:9): unused by the generator.
- Match detection, removal with gravity and refill, swap validation, and chain handling (`findMatches`, `removeAndCollapse`, `getSwapIndex`, `handleSwipe` in app/(tabs)/game.tsx): these live in the game screen's file, app/(tabs)/game.tsx, which is not part of this model.
- Presentation and sound (components/emojiTile.tsx, hooks/useSwipe.ts, app/(tabs)/index.tsx): user interface and audio I/O only.
