# Mario maze board engine, in Dafny

This project models the engine of a small grid puzzle game. Mario walks over a rows×cols board and eats every bun on it. The game is won when the engine's bun counter reaches zero.

What is modelled:

- **Engine (`engine.dfy`, module `Engine`).** This is `src/game/game.js`. The class `Board` holds:
  - the matrix `board`, an `array2<Cell>` of EMPTY, MARIO or BUN (the source encodes them as 0, 1 and 2);
  - Mario's position `mario`;
  - the move counter `noOfMoves`;
  - the bun counter `noOfBuns`.

  Construction runs the source's steps in order:
  1. take the bun count that the random source drew (`Drawable` gives its range);
  2. fill an empty matrix with nested loops (`CreateBoard`);
  3. put MARIO on an EMPTY cell (`PlaceMario`, through `PlaceElem`);
  4. put the buns with a countdown loop (`PlaceBuns`).

  `Board.Move` checks that the target is on the board and updates the counters and Mario's position. It returns the two updates "clear the old cell, then set the new one". Four wrappers offset Mario's position by one cell. `Move` and the wrappers never write the matrix.
- **View (`view.dfy`, module `View`).** These are the two parts of `src/game/index.js` with logic in them. `ApplyUpdates` is the loop that writes a move's updates into the engine's own matrix. `ValidateDimensions` is the dimension check. `MoveAndApply` is what the view does after an arrow key: the engine's move, then `ApplyUpdates` on its result. The class invariant (`Board.Valid`) holds across that pair, not across `Move` alone.
- **Matrix (`matrix.dfy`, module `Matrix`).** The board's contents as a value (`Cells`), the count of cells per tag, and the lemmas about counts that the invariant rests on.

The class invariant says that the matrix holds exactly one MARIO cell, that this cell is `mario`, and that the matrix holds exactly `noOfBuns` BUN cells.

Randomness becomes an input:
- The bun count that `rand` draws from `Math.random()` is the constructor's parameter `buns`. Its precondition restricts it to the integers the draw can yield.
- The cell that the rejection-sampling loop of `placeElem` finally accepts is a nondeterministic choice among the EMPTY cells.

Points where the code behaves differently from what one might expect, and which the model keeps:
- The bun count is drawn by `rand(1, Math.floor(rows*rows)/2)`, and its upper argument can be a half-integer. So the count lies in [1, ceil(rows²/2)], not in [1, floor(rows²/2)]. For rows = 1 it is always 1. It depends on `rows` only, not on `cols`.
- The engine never rejects bad dimensions or too-small boards, and what happens then depends on the case. With rows ≤ 0, `createBoard` returns an empty matrix and the first `matrix[i][j]` in `placeElem` throws a TypeError. With rows ≥ 1 but cols ≤ 0, or when Mario and the buns need more cells than the board has, `placeElem` retries forever. The model makes "Mario and all buns fit" a precondition of the constructor. The finding below shows that the dimension check lets boards through on which the placement retries forever.
- `noOfBuns` is an `int`. `HasWon` is `noOfBuns == 0`, as `!this.noOfBuns` is. With a stale matrix (updates not applied), re-entering an eaten bun's cell would decrement the counter again. Only the invariant rules that out.

## Model

| member | source | states |
|---|---|---|
| `Matrix.CountEmptyGrid` | src/game/game.js:52-63 | an empty rows×cols matrix has rows·cols EMPTY cells and no MARIO or BUN |
| `Matrix.CountPut` | src/game/game.js:79-81 | writing one cell changes each tag's count only by that cell: down by one for its old tag, up by one for its new tag |
| `Matrix.CountZero` | src/game/game.js:130-133 | a tag's count is zero if and only if no cell holds that tag (both directions) |
| `Matrix.CountOneUnique` | src/game/game.js:28 | if exactly one cell holds a tag and `p` holds it, then any cell holding it is `p`: "the" Mario cell is unique |
| `Engine.BunUpper` | src/game/game.js:12-15 | the largest bun count is the ceiling of rows²/2: twice it is at least rows², and twice one less is below rows² |
| `Engine.CreateBoard` | src/game/game.js:52-63 | returns a fresh matrix with exactly `rows` rows of `cols` cells, every cell EMPTY |
| `Engine.PlaceElem` | src/game/game.js:73-86 | needs an EMPTY cell (otherwise the source retries forever); returns an in-bounds cell that was EMPTY and now holds `elem`; every other cell is unchanged |
| `Engine.PlaceBuns` | src/game/game.js:104-109 | places `noOfBuns` BUNs: the BUN count rises by `noOfBuns`, the EMPTY count falls by the same, MARIO is untouched, and only EMPTY cells change, each to BUN |
| `Engine.Board.PlaceMario` | src/game/game.js:94-96 | puts MARIO on a cell that was EMPTY and records that cell as `mario`; the counters are unchanged |
| `Engine.Board.constructor` | src/game/game.js:27-35 | takes a bun count in [1, ceil(rows²/2)] and demands that Mario and all buns fit; builds a fresh rows×cols board with one MARIO at `mario` and exactly `noOfBuns` = that count BUNs, and `noOfMoves` = 0 |
| `Engine.Board.MarioUnique` | src/game/game.js:28 | on a valid board, every cell holding MARIO is `mario`: the position field names the one Mario on the matrix |
| `Engine.Board.IsLegalMove` | src/game/game.js:117-125 | true if and only if (x, y) names a cell of the matrix: 0 ≤ x < rows and 0 ≤ y < cols |
| `Engine.Board.HasWon` | src/game/game.js:130-133 | true if and only if `noOfBuns` is 0; on a valid board, if and only if no BUN is left on the matrix |
| `Engine.Board.Move` | src/game/game.js:142-175 | off the board: returns `win` false and no updates, and changes nothing. Accepted: `noOfMoves` rises by exactly 1; `noOfBuns` falls by 1 exactly when the matrix shows a BUN at the target and never rises; `mario` becomes (x, y); updates are exactly [(old mario, EMPTY), ((x, y), MARIO)] in that order; `win` is `noOfBuns == 0` after the decrement; the matrix is not written |
| `Engine.Board.MoveUp` | src/game/game.js:177-179 | has the effect of `Move(mario.x - 1, mario.y)`, and the matrix is not written |
| `Engine.Board.MoveDown` | src/game/game.js:180-182 | has the effect of `Move(mario.x + 1, mario.y)`, and the matrix is not written |
| `Engine.Board.MoveLeft` | src/game/game.js:183-185 | has the effect of `Move(mario.x, mario.y - 1)`, and the matrix is not written |
| `Engine.Board.MoveRight` | src/game/game.js:186-188 | has the effect of `Move(mario.x, mario.y + 1)`, and the matrix is not written |
| `View.ApplyUpdates` | src/game/index.js:69-75 | writes the updates in list order; each cell ends up with the value of the last update naming it, or keeps its old value |
| `View.AppliedAt` | src/game/index.js:69-75 | applying updates first to last equals, cell by cell, the reference meaning "the last update naming the cell wins, else the old value" |
| `View.LastUpdateWins` | src/game/index.js:69-75 | when update k is the last to name its cell, that cell ends up holding update k's value |
| `View.UntouchedUnchanged` | src/game/index.js:69-75 | a cell that no update names keeps its value, so an empty update list changes nothing |
| `View.MoveThenApplyKeepsInvariant` | src/game/game.js:152-172 | from one MARIO at `mario` with Bun count `buns`, applying an accepted move's updates leaves one MARIO, at the target, and the Bun count drops by one exactly when the target held a BUN; this holds also when the target is Mario's own cell, because the clear comes first |
| `View.MoveAndApply` | src/game/index.js:89-105 | a move followed by applying its updates keeps the class invariant; it has the effect `Move` promises; an accepted target shows MARIO; the matrix is the old one with the updates applied; a won game stays won |
| `View.ValidateDimensions` | src/game/index.js:168-175 | false when either value failed to parse; otherwise true if and only if both values are ≥ 1 |
| `View.ValidatedButUnplaceable` | src/game/index.js:168-175 | every pair of dimensions that passes the check but not the corrected one has a bun count the engine can draw for which Mario and the buns do not fit |
| `View.SmallBoardsValidatedButUnplaceable` | src/game/index.js:168-175 | 1×1 and 2×1 pass the check but not the corrected one; on 1×1 no bun count that can be drawn fits, and on 2×1 the count 2 can be drawn and does not fit |
| `View.PlaceableIffEveryDrawFits` | src/game/index.js:168-175 | the corrected check accepts exactly those valid dimensions on which every bun count the engine can draw leaves room for Mario and all buns |
| `View.NewGame` | src/game/index.js:193-199 | with the corrected check, returns a game exactly when the dimensions pass it; that game is a fresh valid board with the typed dimensions, the drawn bun count and no moves made |

## Left out

- Rendering (`Tile`, `Maze.render`, `Game.render`), the pixel grid and CSS are presentation.
- Keyboard wiring: the four arrow keys call `moveUp`/`moveDown`/`moveLeft`/`moveRight` and then `updateBoard`, and any other key is ignored. `MoveAndApply` models that pair for any target. The listener setup, including the unmatched `'kepress'` name in the removal, is DOM plumbing.
- The `prompt`/`alert` retry loop, the win `alert` and `setState` are browser I/O. `NewGame` models only the construction that follows a successful check.
- `Math.random` and the floating-point arithmetic of `rand` are not modelled. The drawn bun count is an input, and its range [1, ceil(rows²/2)] is stated as an integer bound (`BunUpper`, `Drawable`). Its distribution is not modelled.
- Which EMPTY cell placement picks is a nondeterministic choice. Its uniform distribution is not modelled.
- `parseInt` is not modelled: `ValidateDimensions` takes the already-parsed values, with `None` for NaN.
- `View.NewGame`: assumes the typed dimensions are plain decimal integers, for which `parseInt` and JavaScript's numeric coercion agree. The source checks the `parseInt` value, but hands the raw strings to the engine, which coerces them in `i < dimensions.rows` and `dimensions.rows * dimensions.rows`. For other strings the two differ, and the model builds the parsed size instead:
  - `"3.5"` passes as 3, but the engine builds a 4×4 board with bun counts in [1, 6];
  - `"1e1"` passes as 1, but the engine builds a 10×10 board;
  - `"3abc"` passes as 3, but coerces to NaN, so `createBoard` returns an empty matrix and `placeElem` throws.
- Placement that never ends, when Mario and the buns do not fit, is excluded by the constructor's precondition. It is not modelled as divergence.
- `View.ApplyUpdates`: demands that every update names a cell of the matrix. In the source, a row outside the matrix throws, because `board[x]` is undefined. A column y ≥ cols grows the row. A negative column adds a property named after the number, and the row's length stays the same. A move's updates always name cells of the matrix.
- `Engine.Board.IsLegalMove`: on a matrix with no rows the source throws when it reads `board[0].length`. The model answers false. The constructor never builds such a matrix.
- The source mutates `mario` in place as an object (`mario.x`, `mario.y`). No other code holds that object, so it is modelled as a value.

## Findings

| source | as written | input that shows it | evidently intended | confidence | as-written member | corrected member |
|---|---|---|---|---|---|---|
| src/game/index.js:168-175 | accepts every pair of dimensions that are both ≥ 1, although the engine can place its actors only when rows·cols ≥ bun count + 1 | rows = 1, cols = 1: the check passes, the bun count is always 1, and after Mario fills the only cell the bun placement retries forever (likewise rows = 2, cols = 1 with 2 buns) | accept only dimensions on which Mario and every drawable bun count fit, and fail otherwise instead of hanging | not executed; follows from the code of the check and of the bun draw | `View.ValidatedButUnplaceable` | `View.PlaceableIffEveryDrawFits` |
