# Snake (C#) — a verified model of the game core

The game is a console Snake. The snake lives in a 40 x 20 play area on a
40 x 23 console; the three rows below the play area hold a frame with the
score. Each tick does four things in order:

1. clear the cell buffer;
2. read at most one key and move the snake one cell, with wrap-around at the edges;
3. eat the food (score + 1, new food, growth on the next move) and check for self-collision;
4. paint the frame into the buffer and flush it to the console.

The model has five modules, one per source file plus a small wrapper module:

- `Coords` (`coord.dfy`, from `SnakeCs/Coord.cs`):
  - `Short`, the 16-bit `short`;
  - `Wrap16`, C#'s unchecked `(short)` cast;
  - `Coord` and its three equality members.
- `SnakeState` (`snake.dfy`, from `SnakeCs/Snake.cs`):
  - `Block` and `Snake` are classes, because `Move` rewrites a block's `isHead` in place and mutates the block list.
  - `Snake` keeps the ghost `Body` (the blocks' coordinates, head first) and `Repr` (its objects).
  - The pure functions `NextHead` and `MoveBody` specify `Move`.
- `Gfx` (`gfx.dfy`, from the cell-buffer half of `SnakeCs/ConsoleGraphics.cs`):
  - `ConsoleGraphics` owns the `writeBuffer` array of `(char, attribute)` cells.
  - Each drawing method is proved against a function of the old cells: `Fill` for rectangles, `AxisLine` for lines and `WriteRun` for text.
  - The lemmas say which cells those functions change: `FillAt` for `Fill`, `LineEndpoints` for `AxisLine`, and for `WriteRun` `WriteRunPlacesChar` (the cells it writes) with `WriteRunKeepsUnreached` (every other cell keeps its value, also when the text wraps).
- `GameLoop` (`game.dfy`, from `SnakeCs/Game.cs`):
  - The `Game` class holds the per-tick rules.
  - `NextDirection` is the key decision.
  - `DrawScene` specifies a whole frame, with lemmas for the play area and the score bar.
- `Wrappers` (`wrappers.dfy`): `Option` and `Outcome`.

The model replaces what the game does not decide itself with parameters:

- the keys pressed since the last tick (`pending`, oldest first);
- the random food cell (`fx`, `fy`), assumed to follow `GetInt32`'s range `[0, n)`;
- the result of the console write and its error code (`writeSucceeded`, `lastError`).

The source reports errors by throwing exceptions: `WriteText`'s out-of-range and `Flush`'s failed write. In the model they are `Outcome` values (`Fail(TextDoesNotFit)`, `Fail(WriteFailed(code))`).

Two behaviours of the code are worth stating plainly:

- **Which key counts.** `ProcessInput` reads the *oldest* buffered key and drains the rest unread (`SnakeCs/Game.cs:102-107`). `NextDirection` and `FirstKeyWins` model this.
- **Where the frame is.** `Draw`'s four `DrawLine` calls frame the score strip, rows 20 to 22, not the play area. A horizontal line is a one-row rectangle `xEnd - xStart` cells wide, so it does not paint its end cell, while a vertical line paints both ends. The frame is still closed, because the vertical lines paint column 39 (`ScoreBarFrameAt`, `LineEndpoints`).

## Model

| member | source | states |
|---|---|---|
| Coords.Wrap16 | SnakeCs/Snake.cs:42-45 | the `(short)` cast keeps a value that fits and otherwise changes it only by a multiple of 2^16 |
| Coords.Equals | SnakeCs/Coord.cs:10-13 | true exactly when both coordinates agree |
| Coords.EqualOp | SnakeCs/Coord.cs:15-18 | `==` is value equality, the same as `Equals` |
| Coords.NotEqualOp | SnakeCs/Coord.cs:20-23 | `!=` is the negation of `==` |
| Coords.EqualsIsEquivalence | SnakeCs/Coord.cs:10-13 | coordinate equality is reflexive, symmetric and transitive |
| SnakeState.Offset | SnakeCs/Snake.cs:40-47 | the `switch`: the moved coordinate differs from the old one plus the direction's unit vector by a multiple of 2^16, and equals it when that fits in a `short` |
| SnakeState.WrapInto | SnakeCs/Snake.cs:49-53 | the four wrap tests: a coordinate below 0 becomes the maximum, one above the maximum becomes 0, a coordinate already in the area is kept, and for non-negative limits the result is in the area |
| SnakeState.NextHead | SnakeCs/Snake.cs:40-53 | the new head is the moved coordinate whenever that already lies in the area |
| SnakeState.MoveBody | SnakeCs/Snake.cs:55-61 | the coordinates after a move: one more block when growth is pending, the same number otherwise, and the old blocks but the tail shifted back one place |
| SnakeState.NextHeadInArea | SnakeCs/Snake.cs:49-53 | whatever the old head, the four wrap tests put the new head inside `[0,maxX] x [0,maxY]` |
| SnakeState.NextHeadIsTorusStep | SnakeCs/Snake.cs:40-53 | from a head in the area, the new head is the old one plus the direction's unit vector, modulo the area's size (below 0 goes to max, above max goes to 0) |
| SnakeState.RightAtShortLimitStays | SnakeCs/Snake.cs:43-51 | at x = 32767 with maxX = 32767, the cast wraps to -32768, the wrap test sends it back to maxX, and the head does not move |
| SnakeState.MoveBodyShape | SnakeCs/Snake.cs:55-61 | a move keeps the length, or adds exactly one block when growth was pending; the body stays non-empty; the new head is first and the old blocks follow in order |
| SnakeState.Snake.Valid | SnakeCs/Snake.cs:9-23 | the invariant of a snake: a non-empty block list whose coordinates are `Body`, head first, with only the first block marked head |
| SnakeState.Snake.HeadOnlyAtFront | SnakeCs/Snake.cs:17 | exactly one block is marked head, the one at index 0, which is what `Head` returns |
| SnakeState.Snake.constructor | SnakeCs/Snake.cs:19-23 | a new snake is one head block at `startPos` with no growth pending |
| SnakeState.Snake.Head | SnakeCs/Snake.cs:17 | the first block is the one marked as head and carries the first coordinate |
| SnakeState.Snake.InsideSnake | SnakeCs/Snake.cs:25-33 | true iff some block lies on `pos`, skipping the head block when `excludeHead` |
| SnakeState.Snake.Move | SnakeCs/Snake.cs:35-63 | the new body is `MoveBody` of the old one; exactly one block, the new front one, is marked head; the growth flag is cleared; positions 1.. hold the old block objects, minus the tail unless growing |
| SnakeState.Snake.Grow | SnakeCs/Snake.cs:65-68 | sets the growth flag and keeps the snake valid |
| SnakeState.GrowTwiceAddsOneBlock | SnakeCs/Snake.cs:55-68 | two `Grow` calls before one `Move` lengthen the snake by exactly one block and clear the flag |
| Gfx.ForegroundValue | SnakeCs/ConsoleGraphics.cs:25-46 | each `ForegroundColor` value uses only the low nibble |
| Gfx.BackgroundValue | SnakeCs/ConsoleGraphics.cs:48-69 | each `BackgroundColor` value uses only the second nibble |
| Gfx.BackgroundIsShiftedForeground | SnakeCs/ConsoleGraphics.cs:25-69 | the `BackgroundColor` values are the `ForegroundColor` values shifted one nibble up |
| Gfx.ForegroundValueInjective | SnakeCs/ConsoleGraphics.cs:25-46 | distinct colour names have distinct values |
| Gfx.Attribute | SnakeCs/ConsoleGraphics.cs:220 | `background \| foreground` keeps the foreground in bits 0x0F, the background in bits 0xF0, and clears the high byte |
| Gfx.AttributeInjective | SnakeCs/ConsoleGraphics.cs:220 | an attribute determines both its foreground and its background colour |
| Gfx.CellIndexRoundTrip | SnakeCs/ConsoleGraphics.cs:270-273 | index `y * width + x` of an in-row cell decodes back to (x, y) and lies in `[0, width * height)` |
| Gfx.CellIndexInBuffer | SnakeCs/ConsoleGraphics.cs:270-273 | a cell inside the buffer has an index inside the array |
| Gfx.CellIndexInjective | SnakeCs/ConsoleGraphics.cs:270-273 | distinct in-row cells have distinct indices |
| Gfx.Fill | SnakeCs/ConsoleGraphics.cs:197-207 | the buffer after painting a rectangle, of the same size; its cells are given by `FillAt` |
| Gfx.FillAt | SnakeCs/ConsoleGraphics.cs:197-207 | the rectangle fill sets exactly the cells in `[x0,x0+w) x [y0,y0+h)` and leaves every other cell |
| Gfx.FillEmpty | SnakeCs/ConsoleGraphics.cs:197-207 | a rectangle with non-positive width or height changes nothing |
| Gfx.FillNextCell | SnakeCs/ConsoleGraphics.cs:202-205 | one more inner-loop step is one more single-cell update |
| Gfx.FillNextRow | SnakeCs/ConsoleGraphics.cs:200-206 | one more outer-loop row gives the one-row-taller rectangle |
| Gfx.AxisLine | SnakeCs/ConsoleGraphics.cs:175-195 | the buffer after an axis-aligned line, of the same size; a horizontal line is `Fill` of a one-row rectangle and a vertical one a one-column rectangle |
| Gfx.LineEndpoints | SnakeCs/ConsoleGraphics.cs:175-195 | a horizontal line leaves its end cell unpainted; a vertical line paints both its end cells |
| Gfx.WriteRun | SnakeCs/ConsoleGraphics.cs:224-245 | the buffer after writing text, of the same size, with whether it fit; its cells are given by `WriteRunPlacesChar` and `WriteRunKeepsUnreached` |
| Gfx.AdvanceIndex | SnakeCs/ConsoleGraphics.cs:232-237 | each cursor step stays within the columns and moves to a strictly later cell |
| Gfx.AdvanceCapacity | SnakeCs/ConsoleGraphics.cs:232-243 | each cursor step uses one cell of room; the cursor leaves the last row exactly when one cell was left |
| Gfx.WriteRunFitsIff | SnakeCs/ConsoleGraphics.cs:239-243 | text fits iff it is shorter than the room from the cursor, so text ending on the last cell fails |
| Gfx.WriteRunKeepsEarlier | SnakeCs/ConsoleGraphics.cs:224-245 | writing text never changes a cell before the start cursor |
| Gfx.WriteRunPlacesChar | SnakeCs/ConsoleGraphics.cs:227-238 | the k-th character that fits is written, with its attribute, at the cursor after k steps of right-and-wrap, which lies in the buffer |
| Gfx.WriteRunKeepsUnreached | SnakeCs/ConsoleGraphics.cs:227-238 | a cell that none of the cursor positions of the characters that fit reaches keeps its old value, for any wrapping |
| Gfx.WriteRunInRow | SnakeCs/ConsoleGraphics.cs:227-238 | text ending before the right edge fits, occupies consecutive cells of its row, and leaves every other cell |
| Gfx.WriteRunExample | SnakeCs/ConsoleGraphics.cs:227-238 | "hi" at (9, 0) on a 10-wide buffer puts 'h' at (9, 0) and 'i' at (0, 1) |
| Gfx.ConsoleGraphics.constructor | SnakeCs/ConsoleGraphics.cs:131-140 | the buffer has `width * height` blank cells and remembers the size as `short`s |
| Gfx.ConsoleGraphics.WriteBufferAt | SnakeCs/ConsoleGraphics.cs:270-273 | an in-buffer cell's index is in the array and decodes back to (xPos, yPos) |
| Gfx.ConsoleGraphics.Write | SnakeCs/ConsoleGraphics.cs:215-221 | exactly the cell at (xPos, yPos) changes, to the character and the combined attribute |
| Gfx.ConsoleGraphics.DrawPoint | SnakeCs/ConsoleGraphics.cs:209-212 | exactly one cell becomes a space on the given background, with a black foreground |
| Gfx.ConsoleGraphics.DrawRectangle | SnakeCs/ConsoleGraphics.cs:197-207 | the new buffer is `Fill` of the old one: the rectangle painted, every other cell unchanged |
| Gfx.ConsoleGraphics.DrawLine | SnakeCs/ConsoleGraphics.cs:175-195 | for dy = 0, the same as `DrawRectangle(xStart, yStart, dx, 1)`; for a vertical line, column `xStart` from `yStart` to `yEnd`; nothing when `yEnd < yStart` |
| Gfx.ConsoleGraphics.WriteText | SnakeCs/ConsoleGraphics.cs:224-245 | the buffer becomes `WriteRun`'s cells, which keep the characters written before a failure; the outcome is `TextDoesNotFit` exactly when the run does not fit |
| Gfx.ConsoleGraphics.Flush | SnakeCs/ConsoleGraphics.cs:248-259 | sends the old buffer; the buffer is blank afterwards even when the write fails; reports the failure code |
| Gfx.ConsoleGraphics.Clear | SnakeCs/ConsoleGraphics.cs:149-153 | every cell is blank afterwards |
| Gfx.ConsoleGraphics.ClearWriteBuffer | SnakeCs/ConsoleGraphics.cs:261-268 | every cell has character 0 and attribute 0 |
| GameLoop.KeyDirection | SnakeCs/Game.cs:108-115 | an arrow key names a direction, whose arrow key it is; any other key names none |
| GameLoop.KeyDirectionIsArrow | SnakeCs/Game.cs:108-115 | a key maps to direction `d` exactly when it is `d`'s arrow key |
| GameLoop.NextDirection | SnakeCs/Game.cs:96-123 | the next direction is the last one, or the direction of the first pending key's arrow |
| GameLoop.FirstKeyWins | SnakeCs/Game.cs:102-107 | keys after the first one pending have no effect |
| GameLoop.ArrowTurns | SnakeCs/Game.cs:116-120 | a first pending arrow key turns the snake that way |
| GameLoop.NoArrowKeepsDirection | SnakeCs/Game.cs:96-123 | with no key, or a non-arrow first key, the direction stays |
| GameLoop.MoveStaysInPlayArea | SnakeCs/Game.cs:98-122 | moving with limits (39, 19) keeps every block in `[0,39] x [0,19]` |
| GameLoop.ReversalIsFatal | SnakeCs/Game.cs:78-81 | with three or more blocks, turning straight back onto the second block ends the game, because no reversal is prevented |
| GameLoop.DecimalDigits | SnakeCs/Game.cs:63 | the score's decimal form: at least one digit, only digits, no leading zero |
| GameLoop.DecimalRoundTrip | SnakeCs/Game.cs:63 | reading the digits back gives the score |
| GameLoop.DecimalLength | SnakeCs/Game.cs:63 | a number below 10^k takes at most k digits |
| GameLoop.PaintPoints | SnakeCs/Game.cs:54-57 | the buffer after painting the blocks, of the same size; its cells are given by `PaintPointsAt` |
| GameLoop.PaintPointsAt | SnakeCs/Game.cs:54-57 | after painting the blocks, a cell is red iff some block lies on it, and is unchanged otherwise |
| GameLoop.TwoLinesAt | SnakeCs/Game.cs:31-32 | two lines shorter than a row both fit, each in its own row, over unchanged cells |
| GameLoop.StartLinesFit | SnakeCs/Game.cs:31-32 | both start-screen lines are shorter than the 40-cell row |
| GameLoop.ScoreBarFrame | SnakeCs/Game.cs:59-62 | the buffer after the four frame lines, of the same size; its cells are given by `ScoreBarFrameAt` |
| GameLoop.ScoreBarFrameAt | SnakeCs/Game.cs:59-62 | the four lines paint exactly rows 20 and 22 and the two ends of row 21, in white |
| GameLoop.DrawScene | SnakeCs/Game.cs:52-63 | the frame `Draw` paints, of the buffer's size; its cells are given by `ScenePlayArea` and `SceneScoreBar`, whether it fits by `SceneFits` |
| GameLoop.ScenePlayArea | SnakeCs/Game.cs:54-58 | in the play area the food is blue, other cells under a block are red, and the rest are unchanged |
| GameLoop.SceneScoreBar | SnakeCs/Game.cs:59-63 | when the score has at most 31 digits, "Score: n" occupies row 21 from column 1 inside a closed white frame |
| GameLoop.SceneFits | SnakeCs/Game.cs:63 | the score text fits iff the score has fewer than 71 digits (78 cells from (1, 21)) |
| GameLoop.Game.constructor | SnakeCs/Game.cs:21-39 | a one-block snake at (0, 0) heading right, food at the given cell, score 0, not over, blank 40 x 23 buffer |
| GameLoop.Game.ShowStartScreen | SnakeCs/Game.cs:28-36 | the help lines are written in rows 0 and 1 and flushed; the buffer ends blank; a failed write is reported |
| GameLoop.Game.IsRunning | SnakeCs/Game.cs:126-129 | running exactly while the game is not over |
| GameLoop.Game.RandomizeFood | SnakeCs/Game.cs:84-91 | the food moves to the drawn cell, inside `[0,40) x [0,20)` |
| GameLoop.Game.ProcessInput | SnakeCs/Game.cs:93-124 | the direction becomes `NextDirection` and the snake moves once that way with limits (39, 19); score, food and game-over are unchanged |
| GameLoop.Game.Update | SnakeCs/Game.cs:67-82 | the score rises by 1, the food moves and growth is set exactly when the head is on the food; game over becomes true iff the head lies on another block, and stays true |
| GameLoop.Game.Draw | SnakeCs/Game.cs:52-65 | the sent frame is `DrawScene` of the buffer; nothing is sent when the score does not fit |
| GameLoop.Game.Tick | SnakeCs/Game.cs:41-50 | clear, move, update, draw in this order: the update sees the moved head, the score never falls and rises by at most 1, game over latches, and the frame is `DrawScene` of a blank buffer |

## Left out

- The Win32 calls in `Platform` are foreign code and are not modelled: the console handles, the window title, resizing, the cursor shape and the `Rect`/`CharInfo` marshalling. `WriteConsoleOutputW` is only "may fail with an error code".
- Console I/O is replaced by parameters: `SetWindowSize`, `SetBufferSize`, `Console.Clear`, `ReadKey`, `KeyAvailable`, `WaitForKey` and the key-drain loop. The drain loop only discards keys, so it has nothing to model.
- `Thread.Sleep(TickSpeed)` in `Tick` is pacing only, and `TickSpeed` is not modelled.
- `RandomNumberGenerator.GetInt32` is replaced by the in-range parameters `fx` and `fy`.
- `SnakeCs/Program.cs`, the driver loop, is not part of this model.
- `Direction.cs` is not part of this model: `Direction` is the four values used in `Move`. A C# enum is open, so `Move`'s "Invalid direction" throw can be reached by a cast from another number; it is left out because every call site passes one of the four values.
- C#'s `char` is a UTF-16 code unit, while a Dafny `char` is a Unicode scalar value. A character outside the Basic Multilingual Plane would take two cells in `WriteText` but takes one in the model. The game writes only ASCII text.
- Gfx.ConsoleGraphics.DrawLine: only axis-aligned lines are modelled (`yStart == yEnd`, `xStart == xEnd`, or `yEnd < yStart`). The sloped case uses `float` division and truncation, and the game never draws one. A vertical line must also lie inside the buffer, and a horizontal one with positive length must too (see `DrawRectangle`); every call site passes such a line.
- Gfx.ConsoleGraphics.Write: requires the cell's index `y * width + x` to fall in the array. Otherwise the source throws an index exception, which is not modelled. An `x` outside the columns whose index still falls in the array writes a cell of a neighbouring row in the source; `Write` allows that and the model follows it, but the drawing methods above it exclude it.
- Gfx.ConsoleGraphics.DrawRectangle: requires a non-empty rectangle to lie inside the buffer, and its far edges to fit in a `short`. Every call site passes such a rectangle. In the source a rectangle that sticks out of the columns paints cells of neighbouring rows, and one that sticks out of the array throws an index exception; neither is modelled.
- Gfx.ConsoleGraphics.WriteText: requires the start cursor and `wrapXStart` to lie inside the buffer, which every call site satisfies. In the source a cursor or `wrapXStart` outside the columns writes into a neighbouring row (`WriteText("ab", 45, 0)` on the 40-wide buffer writes cell 45, which is (5, 1)), and a cell outside the array throws an index exception; neither is modelled.
- GameLoop.Game.constructor: the start screen's flush is modelled as succeeding. In the source a failed write throws out of the constructor.
- GameLoop.Game.Update: `Score` is an unbounded integer; the 32-bit overflow of `int` after 2^31 - 1 points is not modelled.
- GameLoop.Game.Draw: a thrown exception in the source ends the program. The model returns it as an `Outcome` and leaves the object valid.
