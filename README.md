# Snake game state machine

A model of the `SnakeGame` object of a 10x10 snake game (`game.py`), without
its pygame shell. The snake moves one cell per tick on a `GRID_SIZE` x
`GRID_SIZE` board (`GRID_SIZE` = 10). It grows when it eats the fruit. The run
ends as GAMEOVER when the head leaves the board or hits the body, and as WON
when the snake fills all 100 cells. Key presses start the game (Space), restart
a finished one (R) and steer (arrow keys).

Layout:

- `board.dfy` (module `Board`): cells as `(x, y)` pairs, the row-major list of
  all cells, and the counting facts. A list of distinct on-board cells has at
  most 100 elements, and exactly 100 when it covers the board.
- `fruit.dfy` (module `FruitPlacement`): `spawn_fruit`. It builds the list of
  empty cells, then picks one or returns `None` when there is none.
- `rules.dfy` (module `Rules`): the four fields as a `Game` value. It holds
  `update` as `Tick`, `reset_data` as `ResetData`, the key handler as `Press`
  (with its arrow-key part `Steer`), the invariant `Inv`, and the laws they obey.
- `snake_game.dfy` (module `Snake`): class `SnakeGame`. Its fields `snake`,
  `direction`, `fruit` and `state` are updated in place by `ResetData`, `Update`
  and `KeyPress`. Each method is proved to perform the `Rules` transition.
  `Update` and `KeyPress` require `Inv` and keep it. `ResetData` requires
  nothing and establishes `Inv` unless the phase was WON, since a reset keeps
  the phase and WON demands a full board.

Conventions taken from the code:

- A cell's first component is horizontal. `draw` uses it as the x pixel
  offset (game.py:82), and Up is `(0, -1)`. Naming does not change any rule:
  every rule treats both components the same way.
- `random.choice` is the only source of randomness. Every operation that may
  place a fruit takes a `choice: nat`, and the picked cell is
  `EmptyCells(snake)[choice % |EmptyCells(snake)|]`.
  `SpawnFruitReachesEveryFreeCell` shows that every empty cell can be picked.
  So the model allows exactly the outcomes the program can produce; it does
  not model the probabilities.
- The self-collision test looks at the whole current body, tail included.
  The code checks `new_head in self.snake` before it drops the tail
  (game.py:53-66), so moving into the cell the tail is about to leave ends the
  game. The model keeps this.
- The reversal test compares against the direction in force, which an earlier
  press since the last tick may already have changed. `TwoPressesReverse`
  shows the consequence: heading up, Left then Down before a tick makes the
  snake head down.

## Model

| member | source | states |
|---|---|---|
| Board.AllCells | game.py:35-36 | The enumeration `for r in range(GRID_SIZE) for c in range(GRID_SIZE)` has 100 cells, holds exactly the on-board cells, and repeats none |
| Board.OccupancyBound | game.py:35-37 | A snake of distinct on-board cells has at most 100 segments. It has exactly 100 iff every board cell is occupied |
| FruitPlacement.Unoccupied | game.py:35-36 | Filtering a cell list by "not occupied" keeps exactly the cells that are in the list and unoccupied, and never lengthens it |
| FruitPlacement.EmptyCells | game.py:35-36 | `empty_cells` holds exactly the on-board cells that are not in the snake, with no repeats |
| FruitPlacement.EmptyCellsCount | game.py:35-36 | For a well-formed snake, the number of empty cells is 100 minus the snake's length |
| FruitPlacement.SpawnFruit | game.py:34-37 | A placed fruit is on the board and off the snake. `None` is returned iff every board cell is occupied |
| FruitPlacement.SpawnFruitReachesEveryFreeCell | game.py:37 | Every empty cell is the result for some choice of the random source |
| FruitPlacement.SpawnFruitNoneIffFull | game.py:35-37 | For a well-formed snake, `None` is returned iff the snake has 100 segments |
| FruitPlacement.SpawnFruitWhenRoom | game.py:35-37 | For a well-formed snake shorter than 100, a fruit is always placed, on a free board cell |
| Rules.ResetDataEstablishesInv | game.py:28-32 | `reset_data` sets the snake to `[(5,5),(5,6)]` and the direction to `(0,-1)`, and keeps the phase. The new fruit is on the board and off the snake, and outside WON the invariant holds |
| Rules.InitialFruit | game.py:30-32 | On the initial snake a fruit is always placed, on a free board cell |
| Rules.ResetData | game.py:28-32 | `reset_data` keeps the phase and always places a fruit, on the board and off the new snake |
| Rules.NewGame | game.py:25-26 | The constructor leaves phase START and a state that satisfies the invariant |
| Rules.Tick | game.py:39-66 | Outside PLAYING `update` changes nothing. From PLAYING it ends in PLAYING, GAMEOVER or WON. It never changes the direction. A GAMEOVER it produces leaves snake and fruit as they were |
| Rules.TickWallCollision | game.py:43-50 | A new head off the board on either axis gives GAMEOVER, with snake, fruit and direction unchanged |
| Rules.TickSelfCollision | game.py:52-55 | A new head on any current segment, the last one included, gives GAMEOVER, with the rest unchanged |
| Rules.TickPlainMove | game.py:57-66 | A free new head that is not the fruit gives snake `[new_head] + old[:-1]`: same length, fruit kept, still PLAYING |
| Rules.TickEat | game.py:57-64 | Eating gives snake `[new_head] + old` (one longer). The phase becomes WON iff the new length is 100, and the fruit is then kept. Otherwise play goes on with a new fruit on a free cell |
| Rules.TickPreservesInv | game.py:39-66 | Every tick maps a state that satisfies the invariant to one that does. The invariant: distinct on-board segments, length 2..100, a unit direction, a fruit on a free board cell unless WON, and a full board when WON |
| Rules.Steer | game.py:116-124 | The arrow-key branch keeps a unit direction a unit direction, and ignores keys that are not arrows |
| Rules.SteerRule | game.py:116-124 | An arrow sets its own unit vector unless that vector is the exact reverse of the current direction, in which case nothing changes |
| Rules.Press | game.py:109-124 | Only R in GAMEOVER/WON changes the snake or the fruit. Only an arrow or that restart changes the direction. Space in START changes the phase to PLAYING and nothing else. A key the handler ignores changes nothing, and so does any press that leaves the phase at START |
| Rules.PressPhase | game.py:109-114 | Space moves START to PLAYING. R moves GAMEOVER or WON to PLAYING. Every other key keeps the phase |
| Rules.PressRIsReset | game.py:112-114 | R in a finished game is `reset_data` followed by phase PLAYING |
| Rules.PressRestart | game.py:112-114 | After R in a finished game: PLAYING, snake `[(5,5),(5,6)]`, direction `(0,-1)`, a fruit on a free cell, and the invariant |
| Rules.PressSteers | game.py:116-124 | An arrow changes only the direction. It does so only while PLAYING and only when the key is not the reverse of the current direction |
| Rules.LastPressWins | game.py:116-124 | Two accepted presses between ticks: the second overwrites the first |
| Rules.TwoPressesReverse | game.py:116-124 | Heading up, Left then Down before a tick leaves the snake heading down |
| Rules.PressPreservesInv | game.py:109-124 | Every key press maps a state that satisfies the invariant to one that does |
| Rules.FirstTickMovesUp | game.py:43-66 | From `[(5,5),(5,6)]` heading up, with the fruit elsewhere, one tick gives `[(5,4),(5,5)]` and stays PLAYING |
| Rules.TopWallEndsGame | game.py:43-50 | From `[(0,0),(0,1)]` heading up, one tick gives GAMEOVER and nothing else changes |
| Snake.SnakeGame.constructor | game.py:25-26 | A new object is in START with the initial layout, and satisfies the invariant |
| Snake.SnakeGame.ResetData | game.py:28-32 | The fields become what `Rules.ResetData` gives. Outside WON the invariant then holds |
| Snake.SnakeGame.Update | game.py:39-66 | The in-place list updates (`insert(0, …)`, `pop()`) and field assignments produce exactly `Rules.Tick` of the old state. The invariant is kept |
| Snake.SnakeGame.KeyPress | game.py:109-124 | The key handler's field assignments produce exactly `Rules.Press` of the old state. The invariant is kept |
| Snake.StartAndTick | game.py:109-126 | A new game, then Space, then one tick: still PLAYING. The snake is `[(5,4),(5,5)]` when the first fruit is not at `(5,4)`, and `[(5,4),(5,5),(5,6)]` when it is |

## Left out

- Rendering (`draw`, `show_message`) and the pygame setup in `__init__`
  (window, clock, font) are I/O; display constants other than `GRID_SIZE` serve
  only those.
- The event loop (`run`): reading pygame events, `QUIT` handling with
  `pygame.quit`/`sys.exit`, `clock.tick(FPS)` and the call order
  events-update-draw are not modelled as a loop. One key event is `KeyPress` /
  `Press`, and one loop iteration's `update()` is `Update` / `Tick`.
- The random generator behind `random.choice` is a foreign library. It is
  replaced by the `choice` parameter, so the model says which cells can be
  picked, not how likely each one is.
- Keys other than Space, R and the four arrows are one `Other` key, which the
  handler ignores.
