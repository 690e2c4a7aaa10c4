# Snake engine, modelled and proved in Dafny

This project models the simulation engine of a grid snake game (`snake_game.py`): the
`Snake`, the `Fruit` and the `SnakeGame` that owns them, with pygame taken away. The board
is an N×N walled grid of integer cells. The snake is a head-first list of cells with a
heading and a deferred-growth flag (`new_block`). The game keeps a list of fruit, a counter
of fruit owed to the board (`pending_spawns`) and a terminal `game_over` flag. One tick
(`update`) runs four steps in order: move, eat, fail check, and at most one respawn. A key
press (`handle_key`) sets the heading but refuses a direct reversal.

The project has five modules:

- `Grid` (`grid.dfy`): cells, the five headings, board bounds, and connected bodies.
- `Rules` (`rules.dfy`): every step of the engine as a pure function on values. This covers
  the move, a key press, one spawn, the eat step, the fail check, the respawn step and a
  whole tick. `Rules.Inv` is the invariant that every reachable state satisfies.
- `Properties` (`properties.dfy`): lemmas about those functions:
  - the invariant and its preservation;
  - the movement and growth laws;
  - the eat and respawn protocols;
  - the fail condition;
  - that game over is terminal;
  - that the length never shrinks over any sequence of ticks and key presses.
- `Engine` (`engine.dfy`): the classes `Snake`, `Fruit` and `SnakeGame` with mutable
  fields. Their methods update the fields step by step, as the game does, with the same
  loops. Each step method of `SnakeGame` and `Snake.Move` is proved to leave exactly the
  state that the matching `Rules` function computes. The other `Snake` and `Fruit` methods
  state their whole new state directly. The four entry points of `SnakeGame` (the
  constructor, `Reset`, `Update` and `HandleKey`) also keep `Valid()`, the game's invariant
  read off the object graph.
- `Scenarios` (`scenarios.dfy`): the unit tests' situations as lemmas, and what happens on
  the first tick of a game.

Randomness is an input. `random.randint` inside `Fruit.spawn` becomes an explicit
candidate list (a "draw"): the cells the spawn would try, in order. A draw holds exactly
`cell_number² + 200` cells, each on the board. The constructor and `reset` take one draw per
initial fruit, and `update` takes one draw for its at most one respawn. The crunch sound
becomes a counter of "fruit eaten" events (`crunches` on `Snake`). `reset` does not clear
the counter.

What the rules show about the start of a game:

- The start body is `(5,10), (4,10), (3,10)`, on row 10. On a board of 10 cells or fewer
  (the menu offers 10) the whole snake starts off the board. `Scenarios.IdleFirstTick`
  proves that the first tick then ends the game even if no key was pressed.
- `Scenarios.FirstTick` proves that on a 10-cell board only UP before the first tick
  survives.
- A first LEFT is fatal on every board, because a standing snake accepts every arrow key and
  LEFT turns the head onto the neck.
- Two key presses between ticks can reverse the snake: UP then LEFT while heading right.
  `Scenarios.TwoTurnsReverse` proves that the next tick then ends the game.

Two things one might expect of a snake game do not hold in this code, and the model follows the code:

- A move does not translate every body cell by the heading. It puts the new head in front
  and drops the tail, so the old cells shift one index back.
- Fruit are not always at distinct free cells. When every candidate of a draw is taken, the
  new fruit stays at (0, 0), and that cell may be covered by the snake or by another fruit.
  `Properties.SpawnAllFresh` proves the guarantee that does hold: a spawned fruit is off the
  body and apart from every earlier fruit, unless it stays at (0, 0).

## Model

| member | source | states |
|---|---|---|
| Rules.Move | snake_game.py:72-94 | A zero heading leaves the snake unchanged. Otherwise the new head is the old head plus the heading, the rest of the body is the old body (without its tail unless growing), the length grows by one exactly when `new_block` was set, and `new_block` is cleared. |
| Rules.Steer | snake_game.py:243-250 | The heading after a key is either the old one or the key's unit vector. For a legal heading, the key is refused exactly when it is the opposite of the current heading (or not an arrow key). From (0,0) every arrow key is accepted. |
| Rules.HandleKey | snake_game.py:235-250 | Does nothing once the game is over. Otherwise only the snake's heading changes, to `Steer` of the old heading and the key. |
| Rules.FirstFreeIndex | snake_game.py:168-174 | The index of the first candidate not in `occupied`; all earlier candidates are occupied; or the end of the draw if none is free. |
| Rules.Place | snake_game.py:164-174 | The spawned position is the old position or a candidate. If some candidate is free, it is the first free candidate in draw order. If all are occupied, the position is unchanged. |
| Rules.SpawnAll | snake_game.py:273-284 | Spawning one fruit per draw appends exactly that many fruit and keeps the existing ones as a prefix. |
| Rules.MakeConfig | snake_game.py:188-190 | The board size is kept. A fruit count of 1 or more is kept, and a smaller one becomes exactly 1. |
| Rules.Score | snake_game.py:213-216 | The score is the length above 3, and 0 for a snake of length 3 or less. |
| Rules.Occupied | snake_game.py:263-271 | A cell is occupied exactly when it is a body cell or a fruit cell. |
| Rules.NewFruit | snake_game.py:279-284 | A new fruit is at (0,0) or at a candidate. If some candidate is off the body and off every fruit, it lands on such a candidate. |
| Rules.Fresh | snake_game.py:188-206 | After construction or reset: the start snake, one fruit per draw, nothing owed, no game over, and the event count given. `Properties.FreshState` states the rest. |
| Rules.IndexOf | snake_game.py:293-297 | The index of the first fruit equal to the head, or the list length when there is none. |
| Rules.CheckEat | snake_game.py:286-303 | If the head is on no fruit, nothing changes. Otherwise the first such fruit is removed, `new_block` is set, `pending_spawns` and the event count each rise by exactly one, and `game_over` is unchanged. |
| Rules.CheckFail | snake_game.py:324-334 | Only `game_over` can change. It becomes true exactly when it was true, or the head is off the board on either axis, or the head equals another body cell. |
| Rules.SpawnCount | snake_game.py:309-317 | A respawn loop creates no more fruit than `max_per_update`, than are owed, or than fit below the target count. When it stops before the first two limits, the board is full. |
| Rules.ProcessPendingSpawns | snake_game.py:305-320 | Nothing happens when nothing is owed, and only the fruit list and the counter can change. `Properties.RespawnFacts` states the rest of the respawn protocol. |
| Rules.Update | snake_game.py:227-228 | A tick does nothing once the game is over. |
| Properties.MoveKeepsContiguous | snake_game.py:83-94 | A move with a legal heading keeps consecutive body cells adjacent. |
| Properties.SpawnAllNext | snake_game.py:279-284 | Spawning with one more draw appends one fruit, spawned against the body and every fruit before it. |
| Properties.SpawnAllOnBoard | snake_game.py:168-173 | With on-board candidates, every fruit stays on the board. |
| Properties.SpawnAllFresh | snake_game.py:263-284 | Every spawned fruit is at (0,0), or off the body and different from every fruit before it. |
| Properties.CheckEatRemovesOne | snake_game.py:291-303 | The eat step removes exactly one copy of the head's cell from the fruit multiset when there is one, and at most one fruit in all. |
| Properties.CheckEatAt | snake_game.py:294-303 | Given the index a front-to-back scan finds, the eat step pops that fruit, sets growth, owes one fruit and emits one event. |
| Properties.RemoveKeepsOnBoard | snake_game.py:300 | Popping one fruit keeps the others on the board. |
| Properties.RespawnLoopExit | snake_game.py:309-320 | The respawn loop's exit condition fixes the counter and the fruit list it ends with. |
| Properties.RespawnFacts | snake_game.py:305-320 | The respawn step only appends fruit. When fruit are owed it appends exactly `SpawnCount` of them: as many as fit under `max_per_update`, the number owed and the room below the target count. It never goes above the target count. It pays one owed fruit per fruit created, keeps the counter at 0 or more, and sets it to 0 whenever the board is full. It keeps fruit plus owed equal to the target, keeps fruit on the board, and leaves the snake, the flag and the events alone. |
| Properties.FreshState | snake_game.py:188-206 | Construction and reset give a length-3 snake standing still, score 0, no game over, nothing owed and a full board of fruit. Each fruit is at (0,0) or off the snake and apart from the earlier fruit. The invariant holds. |
| Properties.HandleKeyPreservesInv | snake_game.py:235-250 | A key press keeps the invariant. |
| Properties.UpdatePreservesInv | snake_game.py:218-233 | A tick keeps the invariant: length at least 3, a connected body, a legal heading, fruit on the board, and fruit plus owed equal to the target. |
| Properties.UpdateMovesAndGrows | snake_game.py:230-231 | A tick moves the body exactly as `Move`. Length and score rise by exactly one when growth was pending and the heading is non-zero, and stay the same otherwise. Growth is pending afterwards exactly when the new head ate a fruit, or growth was pending while the snake stood still. |
| Properties.UpdateFailsIff | snake_game.py:230-232 | A tick ends the game exactly when the moved head is off the board or on another cell of the moved body. |
| Properties.UpdateRespawnsAtMostOne | snake_game.py:230-233 | The respawn step of a tick runs whether or not the tick ended the game. One fruit is appended exactly when one is owed after the eat step, and the counter drops by one. |
| Properties.Step | snake_game.py:218-250 | One event, a tick (`update`) or a key press (`handle_key`), keeps the invariant. |
| Properties.Run | snake_game.py:218-250 | Any sequence of ticks and key presses, in any order, keeps the invariant. |
| Properties.GameOverIsTerminal | snake_game.py:227-241 | Once the game is over, no sequence of ticks and key presses changes anything. |
| Properties.IdleTicksKeepBody | snake_game.py:83-84 | While the heading is (0,0) and no key is pressed, any number of ticks leaves the body and heading unchanged. |
| Properties.RunNeverShrinks | snake_game.py:86-94 | Over any sequence of ticks and key presses the length never decreases, so the score never decreases. |
| Engine.Snake.constructor | snake_game.py:22-27 | A new snake is the start snake with no events. |
| Engine.Snake.Reset | snake_game.py:55-60 | The body, heading and growth flag return to their start values; the event count is kept. |
| Engine.Snake.PlayCrunchSound | snake_game.py:62-65 | Emits one event and changes nothing else. |
| Engine.Snake.AddBlock | snake_game.py:67-70 | Sets `new_block` and changes nothing else. |
| Engine.Snake.Move | snake_game.py:72-94 | The body copy and the in-place update leave exactly the snake that `Rules.Move` computes. |
| Engine.Fruit.constructor | snake_game.py:160-162 | A new fruit is at (0,0) on a board of the given size. |
| Engine.Fruit.Spawn | snake_game.py:164-174 | The attempt loop leaves `pos` exactly at `Rules.Place` of the draw. |
| Engine.SnakeGame.constructor | snake_game.py:188-197 | Creates the clamped configuration and exactly the fresh state, with the invariant. |
| Engine.SnakeGame.Reset | snake_game.py:199-206 | Restores exactly the fresh state (keeping the event count) and the invariant. |
| Engine.SnakeGame.IsGameOver | snake_game.py:208-211 | Returns the game-over flag. |
| Engine.SnakeGame.GetScore | snake_game.py:213-216 | Returns the length above 3, never negative. |
| Engine.SnakeGame.Update | snake_game.py:218-233 | The four steps in order leave exactly `Rules.Update` of the old state and keep the invariant. |
| Engine.SnakeGame.HandleKey | snake_game.py:235-250 | The if-chain leaves exactly `Rules.HandleKey` of the old state and keeps the invariant. |
| Engine.SnakeGame.OccupiedCells | snake_game.py:263-271 | The two loops build exactly the set of body cells and fruit cells. |
| Engine.SnakeGame.SpawnInitialFruits | snake_game.py:273-277 | Appends exactly the fruit that `Rules.SpawnAll` spawns for the draws. |
| Engine.SnakeGame.SpawnOneFruit | snake_game.py:279-284 | Appends one fruit spawned against the current body and fruit. |
| Engine.SnakeGame.FindFruit | snake_game.py:291-297 | The scan returns -1 exactly when no fruit is on the cell, and otherwise the first such index. |
| Engine.SnakeGame.CheckEat | snake_game.py:286-303 | The scan and `pop` leave exactly `Rules.CheckEat` of the old state. |
| Engine.SnakeGame.ProcessPendingSpawns | snake_game.py:305-320 | The `while` loop and the final clear leave exactly `Rules.ProcessPendingSpawns` of the old state. |
| Engine.SnakeGame.CheckFail | snake_game.py:324-334 | The wall test and the body scan leave exactly `Rules.CheckFail` of the old state. |
| Scenarios.WallCollision | test_game.py:141-151 | On a 5-cell board, a snake at (4,2) heading right ends the game in one tick. |
| Scenarios.IdleFirstTick | test_game.py:110-117 | After construction or reset, an idle tick keeps the body. It ends the game exactly when the board has 10 cells or fewer. |
| Scenarios.FirstStepRight | test_game.py:119-127 | The start snake heading right moves its head from (5,10) to (6,10). The tick ends the game exactly when the board has 10 cells or fewer. |
| Scenarios.FirstStepRightGrows | test_game.py:129-139 | With growth scheduled, the first step right gives four segments and score 1. |
| Scenarios.SpawnAvoidsSnake | test_game.py:153-162 | For the test's vertical snake on a 10-cell board, a spawn with a free candidate lands on the board and off the snake. |
| Scenarios.ThreeCollides | snake_game.py:324-334 | A three-cell body collides exactly when its head is off the board or equal to another cell. |
| Scenarios.StartCollision | snake_game.py:324-334 | The start snake moved in heading `d` collides exactly when (5,10)+d is off the board or `d` is LEFT. |
| Scenarios.SteerFromRest | snake_game.py:243-250 | From a standing start every arrow key is accepted and sets its own heading. Any other key leaves the snake standing. |
| Scenarios.HeadSafe | snake_game.py:327-334 | With the heading a first key sets, the new head is on the board and not on the neck exactly when the key is safe for the board size: UP from 10 cells, RIGHT or no arrow key from 11, DOWN from 12, LEFT never. |
| Scenarios.FirstKey | snake_game.py:235-250 | From the start snake, a key changes only the heading, to a legal one. |
| Scenarios.FirstCollision | snake_game.py:72-94 | The first move from the start snake collides exactly when the first key is not safe for the board size. |
| Scenarios.FirstTick | snake_game.py:218-233 | After construction or reset, the first tick after any first key ends the game exactly when that key is not safe for the board size. |
| Scenarios.TwoTurnsReverse | snake_game.py:243-250 | Heading right, UP then LEFT before a tick reverses the snake, and the next tick ends the game. |

## Left out

- Drawing is not modelled: `Snake.draw`, `_update_head_graphics`, `_update_tail_graphics`, `Fruit.draw`, `SnakeGame.draw`, `_draw_grass` and `_draw_score`. They are rendering through pygame.
- Loading images and the sound in `Snake.__init__` is not modelled. It is asset I/O.
- The sound played by `play_crunch_sound` is audio output. The model counts "fruit eaten" events in `crunches` instead.
- `random.randint` is not modelled. Each spawn takes a draw as an input. That the draw holds exactly `cell_number² + 200` on-board cells (`Rules.ValidDraw`) is what `randint(0, cell_number - 1)` would produce, so it is a precondition and not a source requirement.
- `Vector2` is floating point. Only integer cells ever occur, so cells are pairs of integers, and the `int(...)` casts in `_occupied_cells` are the identity.
- pygame key codes are not modelled. Keys are the five cases of `Rules.Key`; every key other than the four arrows is `KeyOther`.
- `main.py` is not part of this model: the window, menus, buttons, timer and event loop, the best-score update and the menu's fruit-count clamp to 1..10.
- `score_db.py` is not part of this model. It is a thin wrapper over sqlite3 file storage.
- `Engine.SnakeGame.constructor`: requires `cellNumber >= 1`. For a smaller board, `randint(0, cell_number - 1)` raises during the initial spawns.
- `Engine.SnakeGame.constructor`: has no default for the fruit count (5 in the source). Every caller passes the count explicitly.
- `Engine.SnakeGame.ProcessPendingSpawns`: has no default for `max_per_update` (1 in the source). `Update` passes 1 explicitly, as the source's own call does.
- `Engine.SnakeGame.constructor`: takes an integer fruit count. The `int(...)` conversion of other numeric types is left out.
- `Engine.SnakeGame.Update` and `Engine.SnakeGame.HandleKey` require `Valid()`. `Valid()` holds in every state the class can reach, including the states the unit tests build by assigning fields. A state assigned arbitrarily from outside need not satisfy it. `Rules.Update` covers such states: it only needs a body that can move, meaning at least two cells, or one when growing.
- `Rules.Move`, `Rules.CheckEat` and `Rules.CheckFail` require a non-empty body, or two cells for a move without growth. Python would raise `IndexError` on a shorter body, and no reachable state has one.
- A spawned fruit is kept off the occupied cells only when one of its candidates is free. A spawn whose candidates are all taken leaves the fruit where it was, so the model promises a free cell only in that case (`Rules.Place`, `Properties.SpawnAllFresh`).
- Object identity of `Fruit` objects is not modelled. `SnakeGame` is proved against the list of fruit positions; aliasing between fruit objects plays no role in the source.
