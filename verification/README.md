# Snake game simulation, modelled in Dafny

This project models the discrete simulation of the "Glamorous Snake Game"
(`snake-game/main.py`) with all drawing removed. The game is played on a 50×35 grid.
A snake is an ordered list of cells with the head first. Each tick it moves one cell in
its current direction, eats food, and can die by leaving the grid or running into
itself. A session keeps the score, a high score that survives restarts, a game-over flag
and a list of particle effects.

Modules follow the components of the program:

- `grid.dfy` (`Grid`): window and cell constants, `Cell`, `Direction` with its unit vector and its opposite.
- `snakes.dfy` (`Snakes`): the `Snake` record and `move`, `change_direction`,
  `check_collision` and `eat_food`. Also the trail history of the last 20 head positions.
- `food.dfy` (`Food`): food placement by rejection sampling.
- `particles.dfy` (`Particles`): particles, reduced to their integer `life` counter.
- `games.dfy` (`Games`): the `Game` session record, `Init`, `Update` (one tick) and `Restart`.
  `Valid` is the session invariant.
- `input.dfy` (`Input`): the key dispatch of `handle_events`, the processing of one
  tick's event queue, and one pass of the main loop.

Randomness is supplied by the caller. Every call of `generate_position` is an in-bounds
cell taken from a `draws` sequence. The sampling loops (`while position in body:
regenerate`) pick the first draw that is off the body. A function that runs such a loop
requires that some draw is free, and only in the states where the loop actually runs.
The one exception is the restart draw of `HandleEvents` and `Tick`, which is required
whenever the game is over on entry (see "Left out").

Behaviour of the program worth knowing:

- Collision is checked after `move` has already dropped the tail. A head that enters the
  cell the tail just left is therefore not a collision (`MovingIntoVacatedTailIsSafe`).
  With growth pending the tail stays, so the same step is a collision (`GrowingIntoTailCollides`).
- `eat_food` only sets a flag. The extra cell appears on the next tick's move (`GrowthIsDeferred`).
- `change_direction` compares against the current direction, not the direction of the
  last move. Two turns in one tick can reverse the snake, and a snake of three or more
  cells then dies (`TwoTurnsCanReverse`, `ChainedTurnsCanKill`).
- `update` removes dead particles before it decrements the survivors. A particle spawned
  with life 60 still exists after 60 updates, with life 0. The 61st update removes it
  (`BurstLifetime`, `BurstGone`).
- The main loop calls `update` once more in the pass where a quit event arrives (`QuitPassStillUpdates`).

## Model

| member | source | states |
|---|---|---|
| `Grid.Dimensions` | snake-game/main.py:12-16 | the grid is 50 columns by 35 rows |
| `Grid.Center` | snake-game/main.py:64-65 | the starting cell is (25, 17) and lies inside the grid |
| `Grid.Vector` | snake-game/main.py:29-33 | each direction is a unit vector; up and down are vertical, up has negative y, left has negative x |
| `Grid.Opposite` | snake-game/main.py:90-95 | the opposite direction has the negated vector and is never the direction itself |
| `Grid.OppositeInvolutive` | snake-game/main.py:90-95 | the opposite of the opposite is the direction itself |
| `Grid.Step` | snake-game/main.py:71-75 | a step lands on a different cell that shares a side with the start |
| `Grid.StepBack` | snake-game/main.py:90-95 | a step in the opposite direction undoes a step |
| `Grid.AdjacentIsStep` | snake-game/main.py:71-75 | any two cells that share a side are one step apart in some direction |
| `Snakes.NewSnake` | snake-game/main.py:64-68 | a new snake is exactly the centre cell, heading right, with no growth pending, an empty trail and a well-formed body |
| `Snakes.PushTrail` | snake-game/main.py:77-80 | the trail never grows beyond 20 entries; the newest entry is last; the result is a suffix of old trail plus new entry, so the oldest entry is evicted first |
| `Snakes.Move` | snake-game/main.py:70-87 | the length grows by one exactly when growth was pending; the new head is one step from the old head; every later cell is the cell one place nearer the head in the old body, and the dropped cell (if any) is the old tail; the flag is cleared and the direction kept |
| `Snakes.ChangeDirection` | snake-game/main.py:89-98 | the new direction is the requested one if and only if the request is not the reverse of the current direction; the result never points backwards; nothing but the direction changes |
| `Snakes.CheckCollision` | snake-game/main.py:100-112 | a collision happens if and only if the head is outside 0..49 × 0..34 or equals some other body cell |
| `Snakes.EatFood` | snake-game/main.py:114-115 | growth becomes pending and nothing else changes |
| `Snakes.MoveKeepsLength` | snake-game/main.py:82-85 | without growth pending the length is unchanged; the body is the new head followed by the old body without its last cell |
| `Snakes.EatThenMoveGrowsByOne` | snake-game/main.py:82-87 | after one or more `eat_food` calls, one move adds exactly one cell in front, keeps the old tail and clears the flag |
| `Snakes.EatRepeatedlyIsEatOnce` | snake-game/main.py:114-115 | eating several times is the same as eating once, because growth is a flag and not a counter |
| `Snakes.MovePreservesWellFormed` | snake-game/main.py:70-87 | a move keeps the body non-empty and connected, and the trail at most 20 long |
| `Snakes.ChangeDirectionIdempotent` | snake-game/main.py:97-98 | repeating a turn request has no further effect |
| `Snakes.TwoTurnsCanReverse` | snake-game/main.py:97-98 | a perpendicular turn followed by a turn back against the original direction reverses the snake |
| `Snakes.MovingIntoVacatedTailIsSafe` | snake-game/main.py:82-110 | for a snake whose cells are distinct and with no growth pending, stepping onto the old tail collides only if the tail was out of bounds |
| `Snakes.GrowingIntoTailCollides` | snake-game/main.py:82-110 | with growth pending, stepping onto the old tail is a self collision |
| `Snakes.SingleCellOnlyHitsWalls` | snake-game/main.py:100-112 | a one-cell snake collides exactly when its head is outside the grid |
| `Snakes.LeavingTheGridCollides` | snake-game/main.py:100-106 | a snake on an edge cell heading out of the grid collides after its next move |
| `Snakes.SafeMovePreservesDistinct` | snake-game/main.py:82-112 | a move that does not collide keeps a distinct, in-bounds body distinct and in bounds |
| `Food.FirstFreeIndex` | snake-game/main.py:233-236 | the sampling loop stops at the first draw that is off the body: every earlier draw was on it |
| `Food.Place` | snake-game/main.py:153-154 | the placed food is one of the draws, inside the grid and not on the body |
| `Food.FullBoardHasNoFreeDraw` | snake-game/main.py:194-195 | when the body covers every cell no draw is free, so the sampling loop cannot stop |
| `Food.PlaceStopsAtFirstFree` | snake-game/main.py:235-236 | any free draw makes the loop stop, at that draw or earlier |
| `Particles.Burst` | snake-game/main.py:41-42 | a burst of n particles has n members, each with life 60 |
| `Particles.Age` | snake-game/main.py:252-254 | an update never lengthens the list and leaves no negative life counter |
| `Particles.AgeAllAlive` | snake-game/main.py:46-49 | when all particles are alive, each survives and loses exactly one unit of life, in order |
| `Particles.AgeAllDead` | snake-game/main.py:252 | when no particle is alive the update empties the list |
| `Particles.AgeAppend` | snake-game/main.py:252-254 | ageing a concatenation is the concatenation of the aged parts, so the update acts on each particle independently |
| `Particles.AgeKeepsLifeInRange` | snake-game/main.py:252-254 | after an update every life counter is non-negative and strictly below the bound it had before |
| `Particles.BurstLifetime` | snake-game/main.py:41-49 | after k ≤ 60 updates a burst is complete, with 60 − k life left in each particle |
| `Particles.BurstGone` | snake-game/main.py:252-254 | after 61 updates a burst has disappeared |
| `Games.Init` | snake-game/main.py:186-195 | a new session satisfies the invariant, has the new snake, food in bounds and off the snake, zero scores, no game over and no particles |
| `Games.Advance` | snake-game/main.py:219-249 | the tick before the particles age: score +10 and relocated food off the body exactly when the head reached the food; game over exactly on collision; high score raised to the score on death; the particles are the old ones followed by 15 (eating) plus 30 (dying) fresh ones with life 60 |
| `Games.Update` | snake-game/main.py:218-254 | a game-over session only ages its particles; otherwise the snake moves (and eats), the score rises by 10 exactly on eating, the new food is off the body, game over follows a collision, the high score is max(old, score) on death and never decreases; the particles afterwards are the aged old ones followed by every particle spawned this tick, each with life 59 |
| `Games.Restart` | snake-game/main.py:302-310 | a restart keeps the high score, resets snake, score, flag and particles, places food off the snake, and keeps the invariant |
| `Games.UpdatePreservesValid` | snake-game/main.py:218-254 | every tick keeps the invariant: food never under the snake; running snake in bounds and self-disjoint; scores non-negative multiples of 10; high score at least the final score once over; particle lives within 0..60 |
| `Games.RunningUpdatePreservesValid` | snake-game/main.py:219-254 | a tick of a running game keeps the invariant: the moved body stays connected, uneaten food stays off it, a survivor stays in bounds and self-disjoint |
| `Games.UpdateKeepsLifeInRange` | snake-game/main.py:248-254 | after a tick every particle life is within 0..60 |
| `Games.GrowthIsDeferred` | snake-game/main.py:220-224 | the tick that eats keeps the length and leaves growth pending; the next tick adds one cell and keeps the tail |
| `Games.GameOverIsFrozen` | snake-game/main.py:219 | once the game is over a tick changes neither snake, food, score nor high score |
| `Games.DeathRecordsHighScore` | snake-game/main.py:239-242 | after the tick that dies the high score is the old high score or the final score, and at least the final score |
| `Input.StopsFirst` | snake-game/main.py:197-205 | whether a tick's events stop the loop is decided by the first event: a close stops, escape stops a finished game, space makes the rest count as a running game, anything else defers to the rest |
| `Input.Dispatch` | snake-game/main.py:201-215 | arrows and WASD turn only a running game; space restarts and escape quits only a finished game; every other key is ignored |
| `Input.HandleEvents` | snake-game/main.py:197-216 | the high score never changes; a running game changes only the snake's direction; the loop stops if and only if some event is a window close, or the game is over on entry and escape comes before any space; a finished game is running afterwards if and only if a space comes before any close or escape, and is otherwise unchanged; the invariant is kept. With `OneIgnored`, `QuitDropsRest`, `EscapeDropsRest`, `OneTurn`, `SpaceRestarts` and `HandleEventsAppend`, the result is fixed on every queue |
| `Input.Tick` | snake-game/main.py:334-338 | one pass of the main loop never lowers the high score, and it reports stopping if and only if the events hold a window close, or escape on a finished game before any space |
| `Input.TickPreservesValid` | snake-game/main.py:334-336 | one pass of the main loop keeps the invariant |
| `Input.RunningIgnoresRestartKeys` | snake-game/main.py:202-215 | space and escape change nothing while the game runs |
| `Input.RestartsFirst` | snake-game/main.py:198-205 | whether a finished game restarts is decided by the first event: space restarts, a close or escape ends the tick first, anything else defers to the rest |
| `Input.HandleEventsAppend` | snake-game/main.py:198-216 | events are handled in order: a queue that leaves the loop running hands its state to the events after it |
| `Input.OneTurn` | snake-game/main.py:207-215 | a steering key on a running game applies `change_direction` at once and keeps the loop running |
| `Input.TurnAfterQueue` | snake-game/main.py:198-215 | after any queue that keeps a running game running, a further steering key is judged against the direction that queue left |
| `Input.OneIgnored` | snake-game/main.py:198-215 | an event or key the game does not act on in the current state leaves the session unchanged and the loop running |
| `Input.QuitDropsRest` | snake-game/main.py:199-200 | a window close leaves the session unchanged, stops the loop and drops the events behind it |
| `Input.EscapeDropsRest` | snake-game/main.py:205-206 | escape on a finished game leaves the session unchanged, stops the loop and drops the events behind it |
| `Input.QuitPassStillUpdates` | snake-game/main.py:334-336 | the pass that sees a window close still runs one update on the session before reporting the stop |
| `Input.SpaceRestarts` | snake-game/main.py:202-204 | space on a finished game restarts it and keeps the loop running |
| `Input.ChainedTurnsCanKill` | snake-game/main.py:197-216 | in a single tick, a sideways turn and then a turn back reverse a straight snake of three or more cells onto its neck; the next update ends the game |

## Left out

- Drawing: all `draw*` methods, surfaces, fonts, glow, the body colour fade and `Food.pulse`. These are presentation only and have no effect on the state.
- Particle position, velocity, size and colour, the 0.98 damping and `random.uniform`. These are floating-point values used only for drawing. A particle is its `life` counter.
- The trail history stores the pre-move head cell rather than its pixel centre (`x * 20 + 10`). The mapping is fixed and used only for drawing.
- `random.randint`: replaced by caller-supplied `draws`, which are assumed in bounds as `randint(0, W-1)` guarantees.
- Food.FirstFreeIndex: covers only runs where the loop ends within the supplied draws. The game's food loop can run forever on a full board (`FullBoardHasNoFreeDraw`), and ends almost surely otherwise; that probability is not modelled.
- `pygame.event.get`, `clock.tick(10)`, `pygame.quit` and `sys.exit`. These are external I/O and timing. Events arrive as a sequence, and one `Tick` is one pass of the loop.
- Input.HandleEvents: requires a free restart draw whenever the game is over on entry, even if no space key arrives. Only that state can restart, and it restarts at most once per tick.
- `Game.run` is modelled as single passes (`Tick`), not as an unbounded loop.
- Events other than window close and key presses are ignored, as the game does.
- The waiting-screen programs. They are decorative rendering and terminal printing with no discrete state.
