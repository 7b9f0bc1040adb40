# Snake game simulation core

This project models the rules of a Pygame snake game in Dafny. Drawing, the window and the
event queue are not modelled. The game runs on an 800 x 600 pixel window divided into
20-pixel cells.

- **Snake** (`Snakes.Snake`): the body is a list of pixel positions with the head first. The
  snake also has a heading and a `grow` flag. `Move` adds a new head one heading ahead. It
  drops the tail unless `grow` is set, in which case it clears the flag instead.
  `ChangeDirection` ignores a heading whose vector sum with the current one is (0, 0).
  `CheckCollision` says whether the head lies on another segment or outside the window. The
  pure functions `Moved`, `Turn`, `Steered` and `Collides` specify these operations. The
  lemmas beside them prove what a move keeps: no repeated cells, a connected body, every
  segment on the board, and the food cell free.
- **Food** (`Foods`): the game draws a random column in 0..39 and row in 0..29 and retries
  until the cell is not part of the snake. The random draws are passed in as a finite stream
  (`RetryDraws`, specified by `FirstFree`). The placement the rest of the model uses,
  `GenerateValidPosition`, picks any free cell by nondeterministic choice. It returns `None`
  exactly when the snake covers the whole board.
- **Game** (`Games.Game`):
  - `Reset` starts a round: a three-segment snake at (400,300), (380,300), (360,300) heading
    right, food on a free cell, score 0, running.
  - `HandleInput` applies one tick's arrow presses through `ChangeDirection`. Each press is
    checked against the heading left by the presses before it.
  - `Update` runs one tick in order: move; if the head is on the food, set `grow`, add one
    to the score and place new food; then clear `running` on a collision. Growth therefore
    shows on the next move.
  - `Update` also keeps the invariant `Consistent`: while the game runs, the snake is
    connected, on the board and has no repeated cell, and the food is on a free cell.

## Notes on the model

- Positions are pixel coordinates, as in the game: a cell is named by its top-left pixel.
- A tick is `HandleInput` (all of the tick's arrow presses) followed by one `Update`.
- `Update` does not check `running`. The game loop simply stops calling it, so the model
  does not make a finished game's ticks no-ops.
- The code has no "board cleared" outcome. On a full board the corrected placement ends the
  game by clearing `running` (see Findings).

## Model

| member | source | states |
|---|---|---|
| `Board.Vector` | main.py:23-28 | each arrow key selects one of the four heading vectors (0,-20), (0,20), (-20,0), (20,0) |
| `Board.Opposite` | main.py:62-66 | the reverse of a heading is a different heading, and its vector sum with the original is (0, 0) |
| `Board.CellOnGrid` | main.py:101-102 | the cell drawn from column i and row j is block-aligned and inside the window iff 0 <= i <= 39 and 0 <= j <= 29 |
| `Snakes.Moved` | main.py:44-55 | after a move the body is one longer when growing and the same length otherwise; the head is the old head plus the heading; every later segment is the old segment one place further forward (so the tail is dropped unless growing) |
| `Snakes.Snake.Move` | main.py:44-55 | the body becomes `Moved(old body, heading, grow)`; `grow` becomes false; the heading is unchanged |
| `Snakes.Turn` | main.py:57-68 | a request for the exact reverse of the heading leaves the heading unchanged; any other request becomes the heading; with valid headings the result is never the reverse of the old one |
| `Snakes.Snake.ChangeDirection` | main.py:57-68 | the heading becomes `Turn(old heading, request)`; the body and `grow` are unchanged |
| `Snakes.Collides` | main.py:70-79 | true iff some segment after the head equals the head, or the head has x < 0, x >= 800, y < 0 or y >= 600 |
| `Snakes.Snake.CheckCollision` | main.py:70-79 | the snake's collision query is `Collides` of its current body, and reading it changes nothing |
| `Snakes.Snake.constructor` | main.py:34-42 | the new snake has the starting body, heading right and no pending growth |
| `Snakes.InitialBodyWellFormed` | main.py:34-42 | the starting body is (400,300), (380,300), (360,300); it is connected, on the board, has no repeated cell and does not collide |
| `Snakes.SteeredLast` | main.py:133-152 | after several presses in one tick the last press is checked against the heading left by the earlier presses |
| `Snakes.SteeredChoosesRequest` | main.py:133-152 | the heading after a tick's presses is the old heading or one of the presses, and it is a valid heading when all of them are |
| `Snakes.SteeredTwice` | main.py:140-150 | two presses in one tick give `Turn(Turn(heading, first), second)` |
| `Snakes.ReversalWithinOneTick` | main.py:57-68 | a press at right angles followed by the reverse of the heading, in the same tick, leaves the snake heading backwards |
| `Snakes.ReversingCollides` | main.py:44-79 | a snake whose neck lies behind its head collides when it moves backwards: with three or more segments on a plain move, with two or more when growth is pending |
| `Snakes.MoveKeepsDistinct` | main.py:44-79 | if the body had no repeated cell, the moved body has none exactly when the new head is not among the other segments, which is the self-collision the query detects |
| `Snakes.MoveKeepsConnected` | main.py:44-55 | a connected body stays connected after a move along a heading |
| `Snakes.MoveKeepsOnGrid` | main.py:44-79 | if there is no collision after the move, every segment is still a block-aligned cell inside the window |
| `Snakes.MoveKeepsCellFree` | main.py:44-55 | a cell outside the body that the new head does not enter is still outside the body after the move |
| `Snakes.TailChase` | main.py:44-79 | when the head steps into the tail's cell, a move without growth is no collision, and a growing move is one |
| `Foods.FreeCellsMembership` | main.py:97-104 | a cell is free iff it is block-aligned, inside the window and not part of the snake |
| `Foods.FullBoard` | main.py:97-104 | no cell is free iff every block-aligned cell inside the window is part of the snake |
| `Foods.FirstFree` | main.py:97-104 | the retry loop's result over a finite stream of draws: the cell of the first draw that is not in the body (every earlier draw hit the body; on the board when the draws are in range), or None when every draw hit the body |
| `Foods.RetryDraws` | main.py:97-104 | the retry loop returns exactly `FirstFree` of the snake body and the draws |
| `Foods.RetryNeverExitsOnFullBoard` | main.py:99-104 | on a full board no stream of in-range draws ever exits the retry loop |
| `Foods.GenerateValidPosition` | main.py:94-104 | the returned cell is block-aligned, inside the window and not part of the snake; None is returned iff the snake covers every cell |
| `Games.Presses` | main.py:140-150 | each arrow press is turned into its heading vector, in order |
| `Games.Game.FirstFood` | main.py:128-129 | the first food of a round lies on a free cell of the board |
| `Games.Game.constructor` | main.py:118-131 | a new game starts a round as `Reset` does |
| `Games.Game.Reset` | main.py:126-131 | a fresh snake with the starting body, heading right and no growth; food on a free cell; score 0; running; the invariant `Consistent` holds |
| `Games.Game.HandleInput` | main.py:133-152 | the heading becomes `Steered(old heading, presses)`; body, growth, food, score and running are unchanged; `Consistent` is kept |
| `Games.Game.Update` | main.py:154-166 | the body becomes the moved body; growth is set and the score rises by one iff the new head is on the food, and otherwise food and score are unchanged; new food lies on a free cell; `running` stays true iff it was true and the snake does not collide (and the board is not full); `Consistent` is kept |

## Left out

- Drawing is not modelled: `Snake.draw`, `Food.draw`, `Game.draw`, `show_game_over` and the colour table. These are display calls with no game logic.
- Window, font and clock setup in `Game.__init__` is not modelled. Neither is the `run` loop with its frame pacing and final delay.
- Event polling is not modelled. `Games.Game.HandleInput` takes the tick's arrow presses as a sequence.
- The QUIT and ESC events, which clear `running`, are input handling and are left out.
- The random generator is not modelled. Draws are passed in as a stream, or the free cell is chosen nondeterministically.
- `Foods.GenerateValidPosition`: it does not state that the cell is drawn uniformly. A contract cannot express the distribution.
- `Foods.RetryDraws`: it covers only a finite prefix of the endless random stream. `None` means "not exited yet", not a result of the game's loop.
- Aliasing is not modelled. The game passes the snake's live body list to food placement, but placement only reads it.

## Findings

| source | as written | input that shows it | evidently intended | confidence | as-written member | corrected member |
|---|---|---|---|---|---|---|
| main.py:99-104 | food placement retries random cells until one is outside the snake, with no exit when none is | a snake of 1199 segments with growth pending and the one free cell directly ahead of its head: the next update eats that food and calls placement on a body covering all 1200 cells, so the loop never returns and the game freezes at the moment it is won | placement reports that no cell is free, and the game ends | medium, not executed | `Foods.RetryNeverExitsOnFullBoard` | `Foods.GenerateValidPosition` |
