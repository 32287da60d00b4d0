# Snake: pixel grid and game engine

A Dafny model of the two stateful pieces of a small Snake game
(`snake.py`):

- **`PixelManager`** (module `Pixels`): a `width x height` grid of cells, each
  a record `(occupied, color)` that starts as `(false, white)`. Cells are
  written with `AddPixel` (refused on an occupied cell unless forced),
  emptied with `RemovePixel`, read with `Query` and all emptied by `Clear`.
  The class keeps the grid in an `array2<Cell>` updated in place; every
  writing method states the new value of the cell it touches and that no
  other cell changes.
- **`GameSnake`** (module `Snake`): the engine. Its fields are the snake
  (head first), the heading, the food cell and the flags `paused`, `over`
  and `moved`. `Update` is the per-tick rule, `MoveUp/Down/Left/Right` gate
  heading changes, `Pause`/`Resume` toggle `paused`, `Draw` repaints the grid
  and `GenFood` places food by rejection sampling.
- **The rules** (module `SnakeRules`): the same behaviour as pure functions
  over a value `Game` of the engine's fields: the wrap-around step
  `NextHead`, the body shift `Advanced`, the cell a redraw leaves
  `RenderCell`, the tick `Tick` (given the cell the engine reads), the heading
  change `Turn`, and the candidate list and `list.remove` that food placement
  uses. The engine's methods are proved against these functions, and the
  lemmas about the game are stated over them.

The engine's invariant `GameSnake.Valid()` says that the grid shows exactly
what a redraw of the current state leaves (`RenderCell`: head colour on the
first segment, body colour on the others, food colour on the food cell unless
a segment covers it), that no two segments share a cell and that everything
lies on the grid. Under it the model proves that the `assert`s in `draw`
(every segment write succeeds) always hold.

Colours are opaque tags (`White`, `Food`, `Body`, `Head`); the program only
compares them. The random index of `gen_food` is chosen nondeterministically
(`choice :| 0 <= choice <= maxn`), so everything proved about `GenFood` holds
for every sequence of draws. Python's `%` and Dafny's `%` agree here because
both operands are non-negative after the size is added.

## Model

| member | source | states |
|---|---|---|
| `Pixels.PixelManager.constructor` | snake.py:23-45 | the new grid has the requested size and every cell is `(false, white)` |
| `Pixels.PixelManager.AddPixel` | snake.py:61-77 | succeeds exactly when the cell is empty or the write is forced; on success the cell is `(true, color)`, on failure nothing changes; no other cell ever changes |
| `Pixels.PixelManager.RemovePixel` | snake.py:79-93 | succeeds exactly when the cell is occupied and then leaves it `(false, white)`; on failure nothing changes; no other cell changes |
| `Pixels.PixelManager.Query` | snake.py:95-106 | returns the stored `(occupied, color)` pair and changes nothing |
| `Pixels.PixelManager.Clear` | snake.py:108-118 | afterwards every cell is `(false, white)` |
| `SnakeRules.NextHead` | snake.py:209-220 | the new head is on the grid; it is the neighbour in the heading's direction, wrapping to the opposite edge (x = 0 going left gives width-1, y = 0 going up gives height-1, and symmetrically); on a grid wider and taller than 1 it differs from the old head |
| `SnakeRules.WrapStep` | snake.py:217-220 | adding the size and taking the remainder maps -1 to size-1, size to 0 and leaves in-range coordinates alone |
| `SnakeRules.NextHeadOpposite` | snake.py:209-220 | a step followed by a step in the opposite direction returns to the start, so the wrap-around loses no cell |
| `SnakeRules.Advanced` | snake.py:233-238 | an ordinary move keeps the length, puts the new head first and gives every later segment its predecessor's old cell |
| `Snake.ShiftBody` | snake.py:234-238 | the tail-to-neck copy loop followed by writing the head produces exactly `Advanced` |
| `SnakeRules.RenderCell` | snake.py:333-347 | a redrawn cell is occupied exactly on the snake and the food; head colour exactly on the first segment, body colour exactly on the other segments, food colour exactly on an uncovered food cell |
| `SnakeRules.Tick` | snake.py:205-241 | a tick always sets `moved`; when over or paused it changes nothing else and scores 0; the score is -1, 0 or +1; the game is over afterwards exactly when it was or the score is -1; the snake grows by one exactly on +1 and otherwise keeps its length; a changed snake starts with the new head; in a running game the score is -1 exactly when the read cell is occupied and body-coloured and +1 exactly when it is occupied with any other colour; a -1 tick leaves the snake as it was and only sets `over` and `moved`; heading, pause flag and food are untouched |
| `SnakeRules.TickOnRenderedGrid` | snake.py:221-241 | on a drawn grid a running tick scores -1 exactly when the target is a segment (then only `over` and `moved` change), +1 exactly when it is the uncovered food (then the snake is the target followed by the whole old body), and otherwise 0 with the body shifted |
| `SnakeRules.FirstTick` | snake.py:168-171 | from the seeded snake `[(20,20),(21,20)]` heading left, the first tick puts the head on (19,20) and grows the snake exactly when the cell read there is occupied |
| `SnakeRules.TailBiteEndsGame` | snake.py:221-225 | moving onto the current tail cell ends the game with -1 and leaves the snake as it was, although the tail would have moved away |
| `SnakeRules.FullGridEndsGame` | snake.py:221-225 | when the snake covers the whole grid, the only case in which food placement fails, the next running tick ends the game |
| `SnakeRules.TickKeepsWellFormed` | snake.py:221-238 | a tick keeps every segment on the grid and no two segments on one cell |
| `SnakeRules.Turn` | snake.py:251-297 | a heading change never selects the reverse of the current heading; when `CanTurn` refuses it the state is unchanged, when `CanTurn` accepts it the heading is the requested one and `moved` is cleared; body, food and the pause and over flags are untouched |
| `SnakeRules.OneTurnPerTick` | snake.py:251-254 | after an accepted heading change every further change is refused until a tick sets `moved` again |
| `SnakeRules.AllCellsSpec` | snake.py:184-186 | the candidate list has width*height entries, lists each grid cell exactly once and nothing else |
| `Snake.CellList` | snake.py:184-186 | the nested append loop builds exactly that candidate list |
| `SnakeRules.RemoveFirst` | snake.py:188 | `list.remove` shortens the list by one, keeps every other value and adds none |
| `SnakeRules.RemoveFirstAt` | snake.py:187-188 | on a list without repetitions, removing the value at index `choice` removes exactly that index |
| `SnakeRules.RemoveFirstMembers` | snake.py:187-189 | on a list without repetitions the removed value is gone and no repetition appears |
| `Snake.GameSnake.GenFood` | snake.py:173-194 | succeeds exactly when some cell was free; on success `food` is a cell that was free and is now `(true, food colour)`; on failure (every candidate rejected) `food` and the grid are unchanged; no other cell changes; `choice` always indexes inside the candidate list |
| `Snake.GameSnake.Update` | snake.py:196-241 | the new state and score are `Tick` applied to the old state and the cell read at the target; after growth the food is replaced by a cell off the snake, or stays (under the head) only when the snake covers the grid; the invariant is kept; when over, paused or dying the grid is untouched |
| `Snake.GameSnake.ReadAhead` | snake.py:221-226 | on a grid a tick may start from, a body-coloured target only occurs on a drawn grid, any other occupied target is the food and off the snake, and an empty target is off the snake |
| `Snake.GameSnake.Eat` | snake.py:226-232 | growth puts the target in front of the whole old body, redraws, and replaces the food as above, keeping the invariant |
| `Snake.GameSnake.Draw` | snake.py:333-347 | after clearing, every segment write succeeds (the `assert`s hold) and the grid is exactly the redraw of the state; the food write silently fails when a segment covers the food |
| `Snake.GameSnake.constructor` | snake.py:155-171 | on a blank grid larger than 21 in both dimensions, the first food placement succeeds (on any cell of the grid, recorded in the ghost field `firstFood`) and after the one tick the snake is `[(19,20),(20,20)]`, or `[(19,20),(20,20),(21,20)]`, the latter exactly when the first food landed on (19,20); with two segments the food is still that first cell; heading left, not paused, not over, `moved` set, invariant established |
| `Snake.GameSnake.Steer` | snake.py:251-255 | the guard and update shared by the four arrow-key handlers: succeeds exactly when `CanTurn` holds for the requested heading, and the new state is `Turn` of the old one |
| `Snake.GameSnake.MoveUp` | snake.py:243-255 | succeeds exactly when the heading is neither up nor down, `moved` is set, not paused, not over and the key is pressed; then the heading is up and `moved` cleared; otherwise nothing changes |
| `Snake.GameSnake.MoveDown` | snake.py:257-269 | as `MoveUp`, for down |
| `Snake.GameSnake.MoveLeft` | snake.py:271-283 | as `MoveUp`, for left |
| `Snake.GameSnake.MoveRight` | snake.py:285-297 | as `MoveUp`, for right |
| `Snake.GameSnake.FunKey` | snake.py:299-307 | always refuses |
| `Snake.GameSnake.Pause` | snake.py:309-319 | succeeds exactly when neither paused nor over, and then sets `paused`; otherwise nothing changes |
| `Snake.GameSnake.Resume` | snake.py:321-331 | succeeds exactly when paused and not over, and then clears `paused`; otherwise nothing changes |

`Update` requires `Ready()`: the invariant, or the state the constructor is in
before its own tick (the food placed, the snake not drawn yet, and the head
not about to enter the body). On any other grid a read cell could disagree
with the snake and `draw`'s `assert`s could fail.

Facts about the program's behaviour that the model makes explicit:

- Growth is decided by "occupied and not body-coloured". On a drawn grid this
  is the same as "the target is the uncovered food" (`TickOnRenderedGrid`).
- `moved` is set at the start of every tick, also when the game is over or
  paused, so a tick in those states is not free of state changes.
- The constructor already runs one tick, so right after construction the head
  is on (19,20).
- The first food placement cannot fail on a blank grid; the constructor's
  `assert` is proved.
- The first food is placed before the snake is drawn, so it may land on a
  cell the snake occupies after the first tick: on (20,20) it is then hidden
  under the neck, on (21,20) it lies where the tail has just left.
- When no food can be placed after growth, the food field keeps the old food
  cell, now under the head; the snake then covers the whole grid, so the
  next running (not paused) tick ends the game (`FullGridEndsGame`).

## Left out

- Drawing on the pygame surface (`PixelManager.update`, `screen.fill`, the
  pixel-size computation and the `pix_map.update()` calls inside the tick):
  foreign rendering library. The constructor keeps only the positivity of the
  grid size that the pixel-size division demands.
- The main loop (event polling, fonts, frame pacing, console output): I/O.
- The uniform distribution of `gen_food`'s choice: a probabilistic claim
  about `random.randint`; the model proves what holds for every choice.
- The class-level lists shared between instances (`pix_map`, `snake`): an
  accident of Python; each object owns its state here.
- Python's negative list indices: the pixel methods require in-range
  coordinates (the engine always wraps first), where Python would silently
  accept -1.
- The unused `keyDown` attribute.
- `food` is `None` before the first `gen_food`; the model stores a
  placeholder cell that the constructor's (proved) food placement overwrites.
- Snake.GameSnake.constructor: requires a blank grid of the engine's size, as
  the program passes it; a grid already holding pixels is not modelled.
- Snake.GameSnake.constructor: the program's `assert` that both map
  dimensions exceed 21 is a precondition here, so the `AssertionError` raised
  on a smaller map is not modelled.
