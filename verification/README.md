# Snake simulation model

A Dafny model of the per-tick rules of gl-snake, a Bevy snake game on an
11 x 11 arena.

- **The snake.** Each fixed step the snake takes its heading from the keys
  pressed. A reversal is ignored. It then moves one cell in lock-step and is
  checked for running into itself or leaving the arena. It eats the food if
  its head lands on it, and grows by one segment at the cell its tail just
  left. A collision ends the round, which restarts from a fixed two-segment
  snake. Food is placed by rejection sampling on a cell no entity holds.
- **The world.** The entity store becomes an immutable `World` record. It
  holds the ordered segment positions (index 0 is the head), the heading, an
  optional food and the `LastTailPosition` resource.
- **Events.** Each Bevy system becomes a pure function. The growth and
  game-over event queues become booleans.
- **The tick.** `Systems.Tick` composes the systems in the order the app
  wires them: input, movement, eating, then growth, with game over after
  movement.

Modules:

- `Seqs`: an option type, distinctness, and the cardinality facts the
  pigeonhole argument needs.
- `Grid` (`src/com.rs`): the arena constant, positions, directions,
  `opposite` and `delta`. It also holds the arena cell count and the
  pigeonhole lemma.
- `Systems` (`src/sys.rs`): the systems and the tick, with their invariants.
  This is the corrected model; see Findings.
- `AsWritten`: the places where the source as written behaves differently,
  each with a concrete counterexample.
- `Scenarios`: concrete rounds (a straight step, eating and growing,
  hitting the wall, a full arena) stated as lemmas.

The random cell choice is the one nondeterministic step. It is an arbitrary
free in-arena cell chosen with `:|`, so food placement and everything built
on it are ghost functions. Because `:|` always makes the same choice for
equal arguments, equal occupancy lists give equal food cells. This is an
effect of the model only: the source draws a fresh random cell every time,
and no contract here relies on the choice being repeated.

## Model

| member | source | states |
|---|---|---|
| Grid.Delta | src/com.rs:42-49 | every heading's step moves by exactly one cell along one axis: one component is 1 or -1, the other 0 |
| Grid.Opposite | src/com.rs:33-40 | the opposite heading is a different heading whose step is the component-wise negation of the original step |
| Grid.OppositeInvolution | src/com.rs:33-40 | taking the opposite twice gives back the original heading |
| Grid.Step | src/sys.rs:110-117 | the head's new cell is a neighbour of the old one, never the old cell itself |
| Grid.StepBack | src/com.rs:33-49 | a step followed by a step along the opposite heading returns to the starting cell |
| Grid.DeltaOrientation | src/com.rs:44-47 | Up raises y, Down lowers y, Right raises x, Left lowers x, the other coordinate staying put |
| Grid.ArenaCellCount | src/com.rs:3 | the 11 x 11 arena has exactly 121 cells, and they are exactly the cells passing the bounds test |
| Grid.Pigeonhole | src/sys.rs:194-206 | a list of fewer than 121 positions always leaves some in-arena cell free, so the rejection loop can stop |
| Grid.DistinctInArenaBound | src/sys.rs:194 | a snake on distinct arena cells has at most 121 segments |
| Systems.Input | src/sys.rs:85-91 | the heading never becomes the reverse of the current one. With no key it stays. A non-reversing key is taken. A reversing key is ignored |
| Systems.Steer | src/sys.rs:75-93 | after any number of frames of key states, the heading is never the reverse of the last movement's heading. It is always that heading or one of the requested directions. The key of the latest frame that asks for a non-reversing direction is the heading, even when later frames have no key. If no frame has a non-reversing key, the heading stays |
| Systems.SteerOneFrame | src/sys.rs:89-91 | with one frame per step, steering coincides with the input system |
| Systems.Move | src/sys.rs:102-135 | the segment count is unchanged. The head goes to its old cell plus the heading's step. Segment i takes segment i-1's old cell. The old tail cell is recorded. Game over is flagged iff the new head is outside [0,11) x [0,11) or equals some body segment's new cell. Without a head nothing happens |
| Systems.HeadMissesNeck | src/sys.rs:119-125 | the moved head never coincides with the segment right behind it |
| Systems.MoveKeepsSnakeSound | src/sys.rs:103-125 | a move without game over keeps the segments distinct and inside the arena. The occupied cells become the old ones minus the vacated tail cell plus the new head cell |
| Systems.Eat | src/sys.rs:144-150 | growth is flagged iff the head is on the food. The food is then removed and nothing else changes. Otherwise the world is untouched |
| Systems.ShortIsPlaceable | src/sys.rs:194-206 | with at most 121 entities, the food spawner either returns at its guard or has a draw it accepts |
| Systems.SpawnFood | src/sys.rs:189-206 | no food iff exactly 121 entities carry a position. Otherwise the food is in the arena on a cell none of them holds |
| Systems.Growth | src/sys.rs:162-168 | on a growth signal the snake is exactly one segment longer. The earlier segments are unchanged and the new last segment is on `LastTailPosition`. A new food goes off the grown snake, or none if the snake fills the arena. Without a signal nothing changes |
| Systems.Initial | src/sys.rs:43-57 | a round starts with head (5,3), body (5,2), heading Up, no recorded tail, and one food in the arena off the snake |
| Systems.Reset | src/sys.rs:181-186 | game over discards the old snake and food. The result is the fixed start configuration with one food off the snake |
| Systems.ValidIsBounded | src/sys.rs:194 | a valid world holds at most 121 position-carrying entities |
| Systems.Tick | src/main.rs:26-59 | a tick keeps the entity count within the 121 the spawner's guard compares with. A reset tick ends in the start configuration. Otherwise the snake keeps its length or grows by one |
| Systems.TickPreservesValid | src/sys.rs:103-168 | from a valid world a tick yields a valid world: at least two segments on distinct arena cells, with the food on another arena cell |
| Systems.ReversalIgnored | src/sys.rs:89-91 | requesting the reverse heading leaves the heading unchanged through a tick that does not reset |
| Systems.TickResetsOnCollision | src/sys.rs:119-134 | a tick resets iff the moved head is out of bounds or on a moved body segment. It then ends in the start configuration with food off the snake |
| Systems.TickGrowsOnFood | src/sys.rs:144-168 | in a tick without reset the snake grows by one, at the old tail cell, exactly when the moved head lands on the food. Otherwise its length and the food are unchanged |
| AsWritten.QueriedPositions | src/sys.rs:192 | the spawner's query inside a tick lists the moved segments and the not-yet-despawned food, and nothing else |
| AsWritten.HeadingAfterFrames | src/sys.rs:75-93 | the per-frame input system leaves the heading as it was or sets it to one of the requested directions |
| AsWritten.OneFrameAgrees | src/sys.rs:75-93 | with one frame per step, the per-frame input and the corrected steering agree |
| AsWritten.TwoFramesReverse | src/sys.rs:89-91 | Left then Down before one step turns an upward snake downward, and a three-segment snake then collides with itself |
| AsWritten.GrowthQueryMissesNewTail | src/sys.rs:162-168 | when the start snake eats food at (5,4), the spawner's query lacks (5,2), where the new segment goes, so that draw is accepted |
| AsWritten.ResetQueryMissesNewSnake | src/sys.rs:181-186 | after a wall collision, and at start-up, the spawner's query lacks (5,3), where the new head goes, so that draw is accepted |
| AsWritten.ResetAfterCrowdedRoundHasNoFood | src/sys.rs:192-196 | after a round ending with 120 segments and a food, the stale query counts 121 and the new round gets no food |
| Scenarios.InitialIsValid | src/sys.rs:43-57 | the start configuration satisfies the tick invariant |
| Scenarios.StraightStep | src/sys.rs:103-121 | from the start configuration with no key, the head goes to (5,4) and the tail to (5,3). (5,2) is recorded and there is no event |
| Scenarios.EatAndGrow | src/sys.rs:144-168 | eating food at (5,4) grows the snake from 2 to 3 segments, the new one at (5,2), with fresh food off the snake |
| Scenarios.LeftWallResets | src/sys.rs:127-134 | a head at (0,3) heading Left leaves the arena and the round restarts from the start configuration |
| Scenarios.FullArenaNoFood | src/sys.rs:194-196 | with all 121 cells listed, the spawner places no food |

## Left out

- Rendering is not modelled. This covers `size_scaling`, `position_translation` and `Size::square` (screen-space floating point), and the camera and material setup (framework plumbing).
- Keyboard polling and key priority (src/sys.rs:77-84) are not modelled. Each frame's key state is an `Option<Direction>`.
- The random draw is not modelled. Its distribution is left out. It is an arbitrary in-arena cell that the occupied list does not hold. The float-to-integer cast of a draw in [0,1) always gives a cell in [0,11).
- Bevy's entity machinery is replaced by a record of plain values: commands, entity ids, queries, events and the fixed-timestep scheduler. Several game-over events in one tick are one boolean.
- Only one head and at most one food are modelled. The source iterates over queries that hold exactly one head and at most one food.
- The order of `game_over` relative to `snake_growth` is left open by the source's labels. The model lets the reset discard a growth signal from the same tick.
- `game_over` runs on every frame, not just on fixed steps. The model runs it inside the tick, right after movement.
- The 32-bit width of positions is not modelled. Coordinates never leave [-1, 11].
- Systems.Growth: requires an empty food slot when growing. A growth signal only comes from eating, which has just removed the food; the source could otherwise hold two food entities, which the single slot cannot represent.
- Systems.SpawnFood: requires that the count guard fires or a free cell exists. With more than 121 entities and no free cell, the source's loop never ends.
- Systems.Tick: requires at most 121 position-carrying entities. Every reachable state meets this (`Scenarios.InitialIsValid`, `Systems.ValidIsBounded`, `Systems.Tick`), and it guarantees that the growth spawn terminates.
- The snake grows in the same fixed step in which it eats: `snake_growth` runs after `snake_eating` and reads the growth event in that step (src/main.rs:40-51).

## Findings

Several discrepancies below come from deferred commands. Bevy applies spawn and despawn commands only at the end of the update stage. So the `food_spawner` query, called from inside `snake_growth` and `snake_spawner`, sees the world before that tick's spawns and despawns. Separately, `input` runs on every rendered frame, while movement runs every 0.15 s. The corrected definitions are the ones `Systems.Tick` uses.

| source | as written | input that shows it | evidently intended | confidence | as-written member | corrected member |
|---|---|---|---|---|---|---|
| src/sys.rs:162-168 | the food spawner's query omits the segment being appended at `LastTailPosition` and still lists the eaten food | start snake heading Up, food at (5,4): the new segment goes to (5,2), and a draw of (5,2) is accepted | new food never on the grown snake | medium, not executed | AsWritten.GrowthQueryMissesNewTail | Systems.Growth |
| src/sys.rs:181-186 | on reset and at start-up the food spawner's query lists the old round's entities (or nothing) instead of the new snake | head (0,3) heading Left with food (7,7): after the reset a draw of (5,3), the new head, is accepted; a 120-segment round ending with a food leaves the next round without food | the new round's food is off the new snake, and there is always one | medium, not executed | AsWritten.ResetQueryMissesNewSnake | Systems.Reset |
| src/sys.rs:89-91 | the reversal filter compares against the heading as earlier frames already changed it | snake moving Up, Left pressed in one frame and Down in the next before a step: heading Down; a three-segment snake then hits itself | the heading is never set to the reverse of the last movement | medium, not executed | AsWritten.TwoFramesReverse | Systems.Steer |
