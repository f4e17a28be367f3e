/** Concrete situations of the game stated as lemmas: the start of a round,
    single ticks from fixed worlds, and the food spawner on a full arena. */
module Scenarios {
  import opened Seqs
  import opened Grid
  import opened Systems

  /** The start of a round is a valid world. */
  lemma InitialIsValid()
    ensures Valid(Initial())
  {
  }

  /** Head at (5, 3) heading up, tail at (5, 2), food out of the way, no
      key: the head moves to (5, 4), the tail to (5, 3), (5, 2) is recorded
      as the vacated tail cell and nothing else happens. */
  lemma StraightStep()
    ensures Tick(World(InitialSegments, Up, Some(Position(0, 0)), None), [None])
         == Stepped(World([Position(5, 4), Position(5, 3)], Up, Some(Position(0, 0)), Some(Position(5, 2))), false)
  {
  }

  /** Food at (5, 4): the head eats it, the snake grows from two to three
      segments with the new one on the vacated (5, 2), and a fresh food is
      placed off the snake. */
  lemma EatAndGrow()
    ensures var r := Tick(World(InitialSegments, Up, Some(Position(5, 4)), None), [None]);
      && !r.reset
      && r.world.segments == [Position(5, 4), Position(5, 3), Position(5, 2)]
      && r.world.food.Some? && InArena(r.world.food.value) && r.world.food.value !in r.world.segments
  {
  }

  /** Head at (0, 3) heading left steps to (-1, 3), outside the arena: the
      round resets to the start configuration. */
  lemma LeftWallResets()
    ensures var r := Tick(World([Position(0, 3), Position(0, 2)], Left, Some(Position(7, 7)), None), [None]);
      && r.reset
      && r.world.segments == InitialSegments && r.world.heading == Up
      && r.world.food.Some? && r.world.food.value !in r.world.segments
  {
  }

  /** With every arena cell occupied the food spawner places nothing (and
      does not loop). */
  lemma FullArenaNoFood()
    ensures |ArenaSeq()| == CellCount
    ensures SpawnFood(ArenaSeq()).None?
  {
  }
}
