/** The source as written, where its behaviour differs from the corrected
    rules in `Systems` that `Tick` composes.

    Two causes. The game's entity commands (spawn, despawn) are deferred
    until the end of the frame's update stage, so the food spawner's
    position query sees the world as it was before the current tick's
    spawns and despawns. And the input system runs on every rendered frame,
    while movement, eating and growth run once per 0.15 s fixed step, so
    several input runs can fall between two moves. */
module AsWritten {
  import opened Seqs
  import opened Grid
  import opened Systems

  /** The positions the food spawner's query yields inside a tick: every
      entity still in the world, i.e. the moved segments and the food as it
      was before eating despawned it. The segment appended by growth and the
      snake respawned by a reset are not there yet. */
  function QueriedPositions(moved: World): (r: seq<Position>)
    ensures forall p :: p in r <==> p in moved.segments || moved.food == Some(p)
    ensures |r| == |moved.segments| + |FoodCells(moved.food)|
  {
    moved.segments + FoodCells(moved.food)
  }

  /** The input system run once per frame, each run filtering against the
      heading the previous run left. */
  function HeadingAfterFrames(heading: Direction, keys: seq<Option<Direction>>): (r: Direction)
    ensures r == heading || exists i :: 0 <= i < |keys| && keys[i] == Some(r)
    decreases |keys|
  {
    if keys == [] then heading
    else HeadingAfterFrames(Input(heading, keys[0]), keys[1..])
  }

  /** With one frame per move the per-frame input agrees with `Steer`. */
  lemma OneFrameAgrees(heading: Direction, key: Option<Direction>)
    ensures HeadingAfterFrames(heading, [key]) == Steer(heading, [key])
  {
  }

  /** Counterexample: a snake moving up gets Left in one frame and Down in the
      next, before it moves. As written it ends up heading down, the reverse
      of its last move, and a three-segment snake then runs into itself.
      `Steer` keeps the Left. */
  lemma TwoFramesReverse()
    ensures HeadingAfterFrames(Up, [Some(Left), Some(Down)]) == Opposite(Up)
    ensures Move(World([Position(5, 3), Position(5, 2), Position(5, 1)],
                       HeadingAfterFrames(Up, [Some(Left), Some(Down)]), None, None)).gameOver
    ensures Steer(Up, [Some(Left), Some(Down)]) == Left
  {
    var w := World([Position(5, 3), Position(5, 2), Position(5, 1)], Down, None, None);
    assert Move(w).world.segments[2] == Move(w).world.segments[0];
  }

  /** Counterexample: the start configuration with the food right above the
      head. The head eats it, the tail leaves (5, 2) and the new segment is
      appended there, yet the queried positions do not include (5, 2), so
      the spawner accepts a draw of (5, 2) and puts the new food under the
      snake. The corrected `Growth`, used by `Tick`, excludes it. */
  lemma GrowthQueryMissesNewTail()
    ensures var moved := Move(World(InitialSegments, Up, Some(Position(5, 4)), None)).world;
      && Eat(moved).grow
      && moved.lastTail == Some(Position(5, 2))
      && Free(QueriedPositions(moved), Position(5, 2))
    ensures var r := Tick(World(InitialSegments, Up, Some(Position(5, 4)), None), [None]).world;
      && r.segments == [Position(5, 4), Position(5, 3), Position(5, 2)]
      && r.food != Some(Position(5, 2))
  {
  }

  /** Counterexample: a snake at the left wall heading left leaves the arena.
      The queried positions are the old round's, so the spawner accepts a
      draw of (5, 3), where the new head is spawned; at start-up the query
      is empty and accepts the same draw. The corrected `Reset` and
      `Initial` exclude the new snake's cells. */
  lemma ResetQueryMissesNewSnake()
    ensures var moved := Move(World([Position(0, 3), Position(0, 2)], Left, Some(Position(7, 7)), None));
      && moved.gameOver
      && Free(QueriedPositions(moved.world), Position(5, 3))
      && Free([], Position(5, 3))
      && Position(5, 3) in Reset(moved.world).segments
      && Position(5, 3) in Initial().segments
  {
  }

  /** Consequence of the stale query at a reset: when the old snake held 120
      segments and a food was live, the query counts 121 entities, so the new
      round starts with no food at all, although the new snake covers only
      two cells. The corrected `Reset` always places one. */
  lemma ResetAfterCrowdedRoundHasNoFood(moved: World)
    requires |moved.segments| == CellCount - 1 && moved.food.Some?
    ensures SpawnFood(QueriedPositions(moved)).None?
    ensures Reset(moved).food.Some?
  {
  }
}
