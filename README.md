# Snake game — a verified model of the simulation core

This project models the simulation core of a small Swing Snake game
(`src/SnakeGamePackage/SnakeGame.java`) in Dafny. The model lives in one
module, `SnakeGamePackage`, in `snake_game.dfy`. It has two classes, matching
the Java classes:

- `Snake` holds the body, a list of grid cells with the head first, and the
  current heading. `Move` puts a new head one step ahead and drops the tail
  cell. `Grow` puts a new head one step ahead and keeps the tail.
  `SetDirection` overwrites the heading.
- `SnakeGame` holds the snake, the food cell, the game-over flag and the score.
  `Move` is one tick: the snake moves, then `CheckCollisions` runs. That method
  does the bounds test, then the self-collision loop, then the food test.
  `SpawnFood`, `GameOver` and `KeyPressed` follow the Java methods.
  `Run` is the `while (!isGameOver)` loop, run over a finite list of rounds.

The methods that carry the game's logic are each proved against a function
on values:

- `Snake.Move` against `Moved`, the body after a move;
- `Snake.Grow` against `Grown`, the body after a grow;
- `KeyPressed` against `Turn`, the heading after one key press;
- `CheckCollisions` against `Checked`, the game state after `checkCollisions`;
- `SnakeGame.Move` against `Ticked`, the game state after one tick;
- `Run` against `Played`, the game state after the run loop, with `PressAll`
  giving the heading after a round's key presses.

The setters `SetDirection`, `SpawnFood` and `GameOver` state their new fields
directly. Lemmas about these functions state the game's properties:

- the body is never empty, and consecutive cells share a side;
- the body length is always the score plus one, and the score counts food events;
- the food is always on the 25×25 grid;
- a finished game has its head off the grid, and nothing changes after it ends;
- no cell ever lies more than two cells off the grid, so the source's `int`
  coordinates cannot wrap;
- a single key press never turns the snake straight round.

Random food draws are parameters `(fx, fy)` constrained to the grid. Key
events are the enum `Key`: four arrow keys and `KeyOther`.

The model follows the code where the code differs from the game's intended
design:

- **Growing steps twice.** `grow()` runs after `move()` and steps again from
  the already-moved head (lines 49-50). On a food tick the head ends two cells
  from where it started, and that second cell is checked for nothing
  (`TickedEats`, `FirstMealStepsTwice`, `OffGridCellWhileRunning`).
- **The self-collision test never fires.** It compares each segment with the
  head and requires the segment to differ from `body.get(0)`, which is the
  head (lines 136, 143-148). A head landing on the body therefore does not end
  the game (`SelfCollisionNeverFires`, `TickedOverIff`). In `CheckCollisions`
  the branch that would end the game is proved unreachable.
- **Food is never re-drawn.** `spawnFood()` may put food on the snake
  (`FoodMayLandOnSnake`).
- **Two presses can reverse the snake.** `keyPressed` compares with the live
  heading, which every accepted press updates at once (`TwoPressReversal`).
- **The start cell is (1, 1).** It is computed as `cols / cols, rows / rows`
  (line 21; `Snake.constructor`).

## Model

| member | source | states |
|---|---|---|
| `SnakeGamePackage.Shift` | src/SnakeGamePackage/SnakeGame.java:29-42 | the cell one step in a direction (up is y-1, down y+1, left x-1, right x+1) shares a side with the start cell |
| `SnakeGamePackage.ShiftUndone` | src/SnakeGamePackage/SnakeGame.java:29-42 | a step followed by a step the opposite way returns to the start cell, and a step always changes the cell |
| `SnakeGamePackage.MovedWellFormed` | src/SnakeGamePackage/SnakeGame.java:25-46 | moving keeps a non-empty connected body connected and keeps its length; the new head is the old head shifted, and the rest is the old body without its last cell |
| `SnakeGamePackage.GrownWellFormed` | src/SnakeGamePackage/SnakeGame.java:48-68 | growing keeps the body connected and adds exactly one cell; the new head is the current head shifted, and every other cell is unchanged |
| `SnakeGamePackage.Snake.constructor` | src/SnakeGamePackage/SnakeGame.java:19-23 | a new snake is exactly the one cell (1, 1), heading right, and satisfies the body invariant |
| `SnakeGamePackage.Snake.Head` | src/SnakeGamePackage/SnakeGame.java:74-76 | returns `body[0]`, a cell of the body, defined whenever the body invariant holds |
| `SnakeGamePackage.Snake.Move` | src/SnakeGamePackage/SnakeGame.java:25-46 | the body becomes `Moved` of the old body: it keeps its length, `body[0]` is the old head shifted by the heading, `body[1..]` is the old body without its last cell, and the heading and the invariant are kept |
| `SnakeGamePackage.Snake.Grow` | src/SnakeGamePackage/SnakeGame.java:48-68 | the body becomes `Grown` of the old body: it gains exactly one cell, the new head is one step from the current head, all old cells follow it unchanged, and the invariant is kept |
| `SnakeGamePackage.Snake.SetDirection` | src/SnakeGamePackage/SnakeGame.java:82-84 | the heading becomes the given one, the body is untouched and the body invariant is kept |
| `SnakeGamePackage.Turn` | src/SnakeGamePackage/SnakeGame.java:199-210 | a key press never yields the reverse of the current heading; the result is the old heading or the key's own direction |
| `SnakeGamePackage.TurnChanges` | src/SnakeGamePackage/SnakeGame.java:199-210 | the heading changes if and only if the key is an arrow that is neither the heading nor its reverse; an arrow that is not the reverse always sets its direction |
| `SnakeGamePackage.TwoPressReversal` | src/SnakeGamePackage/SnakeGame.java:199-210 | right, then up, then left between two ticks leaves the snake heading left, the reverse of where it was going |
| `SnakeGamePackage.SnakeGame.KeyPressed` | src/SnakeGamePackage/SnakeGame.java:199-210 | the source's chain of key tests sets the heading to `Turn` of the old heading, leaves the body alone and keeps the game invariant |
| `SnakeGamePackage.SelfCollision` | src/SnakeGamePackage/SnakeGame.java:143-148 | the loop over the body reports a hit if and only if some segment equals the head and differs from the first segment |
| `SnakeGamePackage.SelfHitMeaning` | src/SnakeGamePackage/SnakeGame.java:143-148 | the loop's condition holds exactly when the head occurs in the body and differs from the first cell |
| `SnakeGamePackage.SelfCollisionNeverFires` | src/SnakeGamePackage/SnakeGame.java:136-148 | with the head taken as the first cell, the self-collision condition is never met |
| `SnakeGamePackage.Ticked` | src/SnakeGamePackage/SnakeGame.java:130-155 | a tick never shortens the body and lengthens it by at most one cell |
| `SnakeGamePackage.TickedOverIff` | src/SnakeGamePackage/SnakeGame.java:135-148 | a tick of a running game ends it if and only if the moved head is off the grid, even when the head lands on the body |
| `SnakeGamePackage.TickedOutOfBounds` | src/SnakeGamePackage/SnakeGame.java:138-141 | when the moved head is off the grid, the game is over with the moved body, and food, score and heading are unchanged, so nothing is eaten off the grid |
| `SnakeGamePackage.TickedEats` | src/SnakeGamePackage/SnakeGame.java:150-154 | when the moved head is on the grid and on the food, the game goes on, the body is one cell longer than before the tick, the head is two steps from the old head, the score rises by one and the food is the new draw |
| `SnakeGamePackage.TickedNoFood` | src/SnakeGamePackage/SnakeGame.java:150-154 | on any other tick the body is just the moved body, and food, score and heading are unchanged |
| `SnakeGamePackage.MovedSound` | src/SnakeGamePackage/SnakeGame.java:130-133 | after `snake.move()` in a running game the body is still connected, the length still matches the score, and the head is at most two cells off the grid |
| `SnakeGamePackage.CheckedInv` | src/SnakeGamePackage/SnakeGame.java:135-155 | `checkCollisions` restores the full game invariant, with any food draw on the grid |
| `SnakeGamePackage.TickedInv` | src/SnakeGamePackage/SnakeGame.java:130-155 | a tick of a running game keeps the game invariant: a connected non-empty body, length equal to score plus one, food on the grid, a finished game's head off the grid, and every cell near the grid |
| `SnakeGamePackage.SnakeGame.constructor` | src/SnakeGamePackage/SnakeGame.java:103-121 | a new game has the snake [(1, 1)] heading right, food at the first draw, score 0, not over, and satisfies the invariant |
| `SnakeGamePackage.SnakeGame.SpawnFood` | src/SnakeGamePackage/SnakeGame.java:123-128 | the food becomes the drawn cell, with no re-draw, and the flag and score are untouched |
| `SnakeGamePackage.SnakeGame.Move` | src/SnakeGamePackage/SnakeGame.java:130-133 | one tick turns the game state into `Ticked` of the old state and keeps the invariant |
| `SnakeGamePackage.SnakeGame.CheckCollisions` | src/SnakeGamePackage/SnakeGame.java:135-155 | the bounds test, the self-collision loop and the food test turn the just-moved state into `Checked` of it, and the invariant holds afterwards; `Checked` keeps the source's three tests in order, including the self-collision branch |
| `SnakeGamePackage.SnakeGame.GameOver` | src/SnakeGamePackage/SnakeGame.java:157-159 | the game is over, and food and score are untouched |
| `SnakeGamePackage.SnakeGame.Run` | src/SnakeGamePackage/SnakeGame.java:183-194 | the loop, with each round's key presses (folded by `PressAll`) before its tick, leaves the game in `Played` of the old state and keeps the invariant |
| `SnakeGamePackage.Played` | src/SnakeGamePackage/SnakeGame.java:183-194 | the body is still non-empty after any number of rounds |
| `SnakeGamePackage.PlayedInv` | src/SnakeGamePackage/SnakeGame.java:183-194 | the game invariant holds after any run from a state that satisfies it, with food draws on the grid |
| `SnakeGamePackage.PlayedCounts` | src/SnakeGamePackage/SnakeGame.java:150-154 | over a run, the score and the body length both grow by exactly the number of ticks on which the snake ate |
| `SnakeGamePackage.PlayedAppend` | src/SnakeGamePackage/SnakeGame.java:183-194 | running two lists of rounds one after the other is the same as running them joined |
| `SnakeGamePackage.PlayedStopsWhenOver` | src/SnakeGamePackage/SnakeGame.java:183-194 | once a run has ended the game, further rounds change nothing |
| `SnakeGamePackage.FirstMealStepsTwice` | src/SnakeGamePackage/SnakeGame.java:130-155 | from the start with food at (2, 1), one tick leaves the body [(3, 1), (2, 1)] with score 1 |
| `SnakeGamePackage.FoodMayLandOnSnake` | src/SnakeGamePackage/SnakeGame.java:123-128 | a food draw that falls on the snake is kept |
| `SnakeGamePackage.WallEndsGame` | src/SnakeGamePackage/SnakeGame.java:138-141 | heading right from column 24 ends the game with the head in column 25, and food and score unchanged |
| `SnakeGamePackage.OffGridCellWhileRunning` | src/SnakeGamePackage/SnakeGame.java:130-155 | eating at the right edge pushes a cell off the grid, two presses turn the head back onto the body, and the game still runs |

## Left out

- Rendering (`draw`, `paintComponent`, `repaint`, colours, pixel sizes), window setup and `main`: these are presentation only.
- The background thread, `Thread.sleep(100)`, the `InterruptedException` handler and the unsynchronised sharing of state between the key handler and the timer thread. The model is single-threaded: key presses happen between ticks, in the order given by `Run`'s rounds.
- `java.util.Random`: each food draw is a pair of parameters, required to lie on the grid.
- The `grid` array: it is allocated but never read.
- `KeyEvent` key codes, `keyTyped` and `keyReleased`: keys are the enum `Key`, and the two no-op handlers are not modelled.
- Key presses after the game has ended: they still change the heading in the source, but `Run` stops at game over, so `Played` does not include them.
- `SnakeGamePackage.SnakeGame.Run`: the run is bounded by the rounds it is given; an unbounded run is any prefix of rounds.
- `getBody`, `getDirection`, `getNumCols` and `getNumRows`: they only read fields or constants, which the model reads directly.
- The score is an unbounded integer. It equals the body length minus one, so Java's `int` could only wrap after more than 2^31 food events.
