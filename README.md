# Snake game state, in Dafny

This project models the game logic of a single-player Snake game (`GamePanel`): a
1300×750-pixel board cut into 50-pixel cells, a snake held in two parallel
coordinate arrays of capacity `GAME_UNITS` = 390, a score, one apple, a direction
and a running flag. One timer tick moves the snake, lets it eat, and checks for
collisions. A key press turns the snake.

Two modules:

- `GameState` (GameState.dfy) states the game as a value. `State` holds the two
  coordinate columns as sequences of length 390, plus the scalar fields. Each step
  of the code is a function on it: `Move`, `CheckApple`, `CheckCollisions`, `Tick`
  and `KeyPressed`. `Run` applies a sequence of timer and key events in order. The
  module also defines the invariants every reachable state keeps (`Reachable`) and
  proves the lemmas about ticks, key presses and event sequences.
- `Panel` (Panel.dfy) is the game as the code holds it. Class `GamePanel` has two
  `array<int>` fields and scalar fields. Each method updates them in place and is
  proved against the matching `GameState` function through the ghost `Model()`.
  The descending shift loop of `move` and the collision loop keep their invariants.

The code's quirks are kept as written:

- `move` shifts slots `bodyParts` down to 1. After a move, slot `bodyParts` holds
  the cell the tail has just left.
- `checkCollisions` also looks at slot `bodyParts`. So moving the head into the
  cell the tail has just left ends the game (`VacatedTailCellIsFatal`).
- Slots above `bodyParts` are never written and stay at the origin. When the snake
  eats, it grows onto such a slot, and the same tick's collision check reads that
  slot. As a consequence, eating an apple at (0,0) always ends the game
  (`EatingAtOriginIsFatal`).
- A key press is checked against the current `direction` field only. Two presses
  between ticks can therefore reverse the snake (`TwoPressesCanReverse`).
- Key presses are not gated on `running`. `GameOverIsPermanent` says that after
  game over only the direction can still change.
- A key press assigns `direction` at once. There is no pending direction.
- The apple is placed without looking at the snake.

## Model

| member | source | states |
|---|---|---|
| `GameState.Delta` | src/GamePanel.java:95-108 | one step changes exactly one coordinate, by exactly one `UNIT_SIZE`; the x coordinate changes exactly for Left and Right |
| `GameState.OppositeStepsBack` | src/GamePanel.java:95-108 | the step of the opposite direction is the negated step |
| `GameState.ReversalIsFatal` | src/GamePanel.java:171-188 | if the head last stepped in some direction and the snake were turned straight back, the next tick would put the head on the segment behind it and end the game: the harm the reversal guard prevents |
| `GameState.NextDirection` | src/GamePanel.java:168-190 | a key press never yields the opposite of the current direction; an arrow key is ignored exactly when it names the current direction or its opposite, and is taken otherwise; any other key changes nothing |
| `GameState.TwoPressesCanReverse` | src/GamePanel.java:170-188 | from any direction, a quarter-turn key followed by the reverse key leaves the snake heading opposite to where it started |
| `GameState.CellToPixel` | src/GamePanel.java:82-83 | a drawn cell index becomes a multiple of `UNIT_SIZE` whose quotient by `UNIT_SIZE` is that index |
| `GameState.PlaceApple` | src/GamePanel.java:81-84 | the apple lands on a cell corner inside the board, in the drawn cell; nothing else in the state changes |
| `GameState.ApplePositionsAreTheGrid` | src/GamePanel.java:81-84 | the positions the apple can take are exactly the cell corners on the board: x in {0, 50, …, 1250}, y in {0, 50, …, 700} |
| `GameState.Start` | src/GamePanel.java:16-42 | the initial game (all slots at the origin, 6 parts, score 0, heading right, apple placed, running) satisfies every invariant of `Reachable` |
| `GameState.Shifted` | src/GamePanel.java:87-92 | after a move of an n-part snake, slots 1..n hold the old values of slots 0..n-1, slot 0 moved by the step, and slots above n are unchanged |
| `GameState.ShiftedSlotwise` | src/GamePanel.java:89-92 | a column that agrees with the shift slot by slot is the shifted column |
| `GameState.Move` | src/GamePanel.java:87-109 | a move changes only the two coordinate columns and keeps their capacity |
| `GameState.CheckApple` | src/GamePanel.java:112-118 | when the head is on the apple, length and score each grow by exactly 1 and the apple moves to the drawn cell; otherwise the state is unchanged; the snake, direction and running flag never change |
| `GameState.CheckCollisions` | src/GamePanel.java:121-138 | only the running flag changes, and it is never set to true |
| `GameState.KeyPressed` | src/GamePanel.java:168-191 | only `direction` changes, whatever `running` is, and it becomes `NextDirection` of the old direction and the key |
| `GameState.Tick` | src/GamePanel.java:156-163 | a tick faults exactly when it would index past the arrays (`TickSafe`); a tick after game over changes nothing; a tick that started running leaves fewer than 390 parts |
| `GameState.Apply` | src/GamePanel.java:156-191 | a timer event or key event keeps the arrays at capacity |
| `GameState.Run` | src/GamePanel.java:156-191 | any sequence of events that does not fault keeps the arrays at capacity |
| `GameState.ReachableFitsInt32` | src/GamePanel.java:16-24 | in every reachable state, every coordinate, the next head position, the length and the score fit a Java `int`, and 0 ≤ score < length < 390 |
| `GameState.TickEats` | src/GamePanel.java:113-116 | a tick whose moved head lands on the apple adds exactly 1 to length and score and re-places the apple, even when the same tick ends the game |
| `GameState.TickWithoutEating` | src/GamePanel.java:112-118 | a tick that does not eat keeps length, score and apple |
| `GameState.TickEndsGame` | src/GamePanel.java:121-133 | a running tick ends the game exactly when the moved head meets a slot 1..`bodyParts` (counted after eating) or leaves the 1300×750 board |
| `GameState.VacatedTailCellIsFatal` | src/GamePanel.java:123-127 | moving the head into the cell the tail has just left ends the game |
| `GameState.EatingAtOriginIsFatal` | src/GamePanel.java:123-127 | eating an apple at (0,0) ends the game and still counts the apple |
| `GameState.LeftFromOriginIsFatal` | src/GamePanel.java:131-133 | a head at x = 0 heading left reaches x = -50 and the game ends |
| `GameState.MoveKeepsConnected` | src/GamePanel.java:87-108 | after a running move, each slot 0..`bodyParts`-1 shares a cell with the next slot or is orthogonally adjacent to it |
| `GameState.TickKeepsReachable` | src/GamePanel.java:156-161 | a tick keeps every invariant (length = 6 + score, apple on the grid, head on the board while running, all slots within one cell of the board, unwritten slots at the origin, visible body connected); length and score never decrease |
| `GameState.RunKeepsReachable` | src/GamePanel.java:156-161 | along any non-faulting event sequence the invariants hold, length and score never decrease, and a finished game stays finished |
| `GameState.GameOverIsPermanent` | src/GamePanel.java:157-161 | once the game is over, no event sequence faults, and none changes anything but the direction |
| `Panel.GamePanel.constructor` | src/GamePanel.java:29-45 | the new panel's fields equal `Start` for the drawn apple cell |
| `Panel.GamePanel.NewApple` | src/GamePanel.java:81-84 | the apple fields become the drawn cell times `UNIT_SIZE`; nothing else changes |
| `Panel.GamePanel.Move` | src/GamePanel.java:87-109 | after the in-place descending shift and the head step, slots 1..`bodyParts` hold the old slots 0..`bodyParts`-1, the slots above are unchanged, and the head has moved one step in `direction`; the fields then equal `GameState.Move` of the old state |
| `Panel.GamePanel.MovedModel` | src/GamePanel.java:87-109 | the slot-by-slot outcome of the shift and head step is exactly `GameState.Move` of the state before |
| `Panel.GamePanel.CheckApple` | src/GamePanel.java:112-118 | the fields afterwards equal `GameState.CheckApple` of the old state |
| `Panel.GamePanel.CheckCollisions` | src/GamePanel.java:121-138 | the loop clears `running` exactly when some slot 1..`bodyParts` equals the head, or the head is off the board; otherwise `running` is kept |
| `Panel.GamePanel.ActionPerformed` | src/GamePanel.java:156-163 | one tick on the fields gives the state `GameState.Tick` computes, provided the tick does not index past the arrays |
| `Panel.GamePanel.KeyPressed` | src/GamePanel.java:168-191 | the direction becomes `NextDirection` of the old direction and the key; nothing else changes, whatever `running` is |

## Left out

- Rendering (`paintComponent`, `draw`, `gameOver`, colours, fonts, text centring) is not modelled. It only issues drawing calls.
- The Swing `Timer` (its 175 ms delay, start and stop) and `repaint` are not modelled. `timer.stop()` appears only as `running` becoming false.
- `java.util.Random` is not modelled. Each tick takes the apple cell that the generator would draw as an argument, in range 0..25 and 0..14.
- The constructor's panel set-up (size, background, focus, key-listener registration) is not modelled.
- Interleaving of timer ticks and key events is not modelled: both are taken as one sequential event stream (`Run`).
- `Panel.GamePanel.ActionPerformed`: requires `TickSafe`, i.e. that the tick does not index past the arrays. In the code, a tick at `bodyParts` = 390 throws `ArrayIndexOutOfBoundsException` on the first store of the shift, before anything is written. A tick that eats at `bodyParts` = 389 throws only in the collision check: the move is done, `bodyParts` and `applesEaten` have been incremented, the apple has been re-placed, and `running` stays true. The value-level `Tick` returns `None` for exactly those two cases. The state left behind by the exception is not modelled.
- `Panel.GamePanel.Move`: requires `bodyParts` < 390, the bound under which `x[bodyParts]` exists.
- `Panel.GamePanel.CheckCollisions`: requires `bodyParts` < 390, for the same reason.
- Java's 32-bit `int` is modelled with unbounded integers. `ReachableFitsInt32` shows that no reachable value comes near the 32-bit limits, so no wrap-around can occur.
- `KeyEvent` key codes are reduced to the four arrow keys and "any other key".
