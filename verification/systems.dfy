/** The per-tick game rules: steering, lock-step movement with its collision
    and bounds check, eating, growth, food placement and the round reset,
    composed into one `Tick`.

    The entity store becomes a `World` record: the segment positions in
    order (index 0 is the head), the head's heading, the food slot and the
    `LastTailPosition` resource. The growth and game-over event queues become
    booleans. Food placement is defined from what the arena looks like once
    the tick's spawns and despawns have taken effect (see `AsWritten` for the
    view the source's spawner actually queries). */
module Systems {
  import opened Seqs
  import opened Grid

  datatype World = World(
    segments: seq<Position>,
    heading: Direction,
    food: Option<Position>,
    lastTail: Option<Position>)

  /** Movement's result: the moved world and whether a game-over event was sent. */
  datatype Moved = Moved(world: World, gameOver: bool)

  /** Eating's result: the world and whether a growth event was sent. */
  datatype Eaten = Eaten(world: World, grow: bool)

  /** A tick's result and whether the round was reset during it. */
  datatype Stepped = Stepped(world: World, reset: bool)

  /** Head at (5, 3) and one body segment at (5, 2). */
  const InitialSegments: seq<Position> := [Position(5, 3), Position(5, 2)]

  const InitialHeading: Direction := Up

  /** The cells the food slot occupies. */
  function FoodCells(food: Option<Position>): (r: seq<Position>)
    ensures |r| <= 1
    ensures forall p :: p in r <==> food == Some(p)
  {
    match food
    case None => []
    case Some(p) => [p]
  }

  // ---------------------------------------------------------------------
  // Steering
  // ---------------------------------------------------------------------

  /** One run of the input system: a pressed key asks for its direction, no
      key asks for the current heading; the request is taken unless it is
      the reverse of the heading. */
  function Input(heading: Direction, key: Option<Direction>): (r: Direction)
    ensures r != Opposite(heading)
    ensures key.None? ==> r == heading
    ensures key.Some? && key.value != Opposite(heading) ==> r == key.value
    ensures key == Some(Opposite(heading)) ==> r == heading
  {
    var dir := match key case None => heading case Some(d) => d;
    if heading != Opposite(dir) then dir else heading
  }

  /** One frame of steering measured against `moved`, the heading the snake
      last moved along, rather than against the heading as already changed
      by earlier frames. */
  function SteerFrame(moved: Direction, current: Direction, key: Option<Direction>): Direction {
    var dir := match key case None => current case Some(d) => d;
    if moved != Opposite(dir) then dir else current
  }

  /** Frame `i` pressed a key that does not reverse the last movement. */
  predicate Usable(moved: Direction, keys: seq<Option<Direction>>, i: int) {
    0 <= i < |keys| && keys[i].Some? && keys[i].value != Opposite(moved)
  }

  function SteerFrom(moved: Direction, current: Direction, keys: seq<Option<Direction>>): (r: Direction)
    requires current != Opposite(moved)
    ensures r != Opposite(moved)
    ensures r == current || exists i :: 0 <= i < |keys| && keys[i] == Some(r)
    ensures Usable(moved, keys, |keys| - 1) ==> r == keys[|keys| - 1].value
    ensures (forall i :: 0 <= i < |keys| ==> !Usable(moved, keys, i)) ==> r == current
    ensures forall j :: Usable(moved, keys, j) && (forall k :: j < k < |keys| ==> !Usable(moved, keys, k)) ==> r == keys[j].value
    decreases |keys|
  {
    if keys == [] then current
    else
      var next := SteerFrame(moved, current, keys[0]);
      assert forall i :: 0 <= i < |keys| - 1 ==> (Usable(moved, keys, i + 1) <==> Usable(moved, keys[1..], i));
      assert forall i :: Usable(moved, keys[1..], i) ==> Usable(moved, keys, i + 1);
      assert next == if Usable(moved, keys, 0) then keys[0].value else current by {
        OppositeInvolution(moved);
      }
      SteerFrom(moved, next, keys[1..])
  }

  /** The heading after the key states of all frames since the last
      movement: never the reverse of the heading the snake last moved along,
      and always that heading or one of the requested directions. The key of
      the latest frame that asks for a non-reversing direction is taken, so
      a key tapped and released before the step still counts; with no such
      key in any frame the heading stays. */
  function Steer(moved: Direction, keys: seq<Option<Direction>>): (r: Direction)
    ensures r != Opposite(moved)
    ensures r == moved || exists i :: 0 <= i < |keys| && keys[i] == Some(r)
    ensures Usable(moved, keys, |keys| - 1) ==> r == keys[|keys| - 1].value
    ensures (forall i :: 0 <= i < |keys| ==> !Usable(moved, keys, i)) ==> r == moved
    ensures forall j :: Usable(moved, keys, j) && (forall k :: j < k < |keys| ==> !Usable(moved, keys, k)) ==> r == keys[j].value
  {
    SteerFrom(moved, moved, keys)
  }

  /** With one frame per movement, steering is exactly the input system. */
  lemma SteerOneFrame(heading: Direction, key: Option<Direction>)
    ensures Steer(heading, [key]) == Input(heading, key)
  {
  }

  // ---------------------------------------------------------------------
  // Movement, collision and bounds
  // ---------------------------------------------------------------------

  /** Lock-step movement: the head steps along the heading, every other
      segment takes the cell the segment ahead of it held, and the tail's
      old cell is recorded. A game-over event is sent when the new head is
      outside the arena or on a (moved) body segment. Without a head nothing
      happens. */
  function Move(w: World): (r: Moved)
    ensures |r.world.segments| == |w.segments|
    ensures r.world.heading == w.heading && r.world.food == w.food
    ensures |w.segments| == 0 ==> r == Moved(w, false)
    ensures |w.segments| > 0 ==>
      && r.world.segments[0] == Step(w.segments[0], w.heading)
      && (forall i :: 1 <= i < |w.segments| ==> r.world.segments[i] == w.segments[i - 1])
      && r.world.lastTail == Some(w.segments[|w.segments| - 1])
      && (r.gameOver <==>
            || !InArena(r.world.segments[0])
            || exists i :: 1 <= i < |w.segments| && r.world.segments[i] == r.world.segments[0])
  {
    if |w.segments| == 0 then Moved(w, false)
    else
      var head := Step(w.segments[0], w.heading);
      var body := w.segments[..|w.segments| - 1];
      assert head in body ==> ([head] + body)[1 + IndexOf(body, head)] == head;
      Moved(w.(segments := [head] + body, lastTail := Some(w.segments[|w.segments| - 1])),
            head in body || !InArena(head))
  }

  /** The head never runs into the segment right behind it, because every
      step moves. */
  lemma HeadMissesNeck(w: World)
    requires |w.segments| >= 2
    ensures Move(w).world.segments[0] != Move(w).world.segments[1]
  {
  }

  /** A move without a game-over event keeps a sound snake sound: its cells
      stay distinct and inside the arena, and it covers the cells it covered
      before minus the vacated tail cell plus the new head cell. */
  lemma MoveKeepsSnakeSound(w: World)
    requires |w.segments| >= 1
    requires Distinct(w.segments) && AllInArena(w.segments)
    requires !Move(w).gameOver
    ensures Distinct(Move(w).world.segments) && AllInArena(Move(w).world.segments)
    ensures Elems(Move(w).world.segments)
         == Elems(w.segments[..|w.segments| - 1]) + {Step(w.segments[0], w.heading)}
  {
  }

  // ---------------------------------------------------------------------
  // Eating
  // ---------------------------------------------------------------------

  /** The head lands on the food: the food goes and a growth event is sent.
      Otherwise nothing changes. */
  function Eat(w: World): (r: Eaten)
    ensures r.grow <==> |w.segments| > 0 && w.food == Some(w.segments[0])
    ensures r.grow ==> r.world == w.(food := None)
    ensures !r.grow ==> r.world == w
  {
    if |w.segments| > 0 && w.food == Some(w.segments[0]) then Eaten(w.(food := None), true)
    else Eaten(w, false)
  }

  // ---------------------------------------------------------------------
  // Food placement
  // ---------------------------------------------------------------------

  /** The food spawner returns: either its count guard fires or some draw
      is accepted. */
  ghost predicate Placeable(occupied: seq<Position>) {
    |occupied| == CellCount || exists p :: Free(occupied, p)
  }

  /** Any occupancy list shorter than the arena is placeable. */
  lemma ShortIsPlaceable(occupied: seq<Position>)
    requires |occupied| <= CellCount
    ensures Placeable(occupied)
  {
    if |occupied| < CellCount {
      Pigeonhole(occupied);
    }
  }

  /** The food spawner. `occupied` lists the position of every
      position-carrying entity (with repeats). When there are exactly 121 of
      them no food is made; otherwise the food goes to a random cell that
      none of them occupies, here an arbitrary such cell. */
  ghost function SpawnFood(occupied: seq<Position>): (r: Option<Position>)
    requires Placeable(occupied)
    ensures r.None? <==> |occupied| == CellCount
    ensures r.Some? ==> InArena(r.value) && r.value !in occupied
  {
    if |occupied| == CellCount then None
    else
      var p :| Free(occupied, p);
      Some(p)
  }

  // ---------------------------------------------------------------------
  // Growth
  // ---------------------------------------------------------------------

  /** On a growth event the snake gains one segment at the cell its tail
      just left, and a new food is placed away from the grown snake. */
  ghost function Growth(w: World, grow: bool): (r: World)
    requires grow ==> w.lastTail.Some? && w.food.None?
    requires grow ==> Placeable(w.segments + [w.lastTail.value])
    ensures !grow ==> r == w
    ensures grow ==>
      && |r.segments| == |w.segments| + 1
      && r.segments[..|w.segments|] == w.segments
      && r.segments[|w.segments|] == w.lastTail.value
      && r.heading == w.heading && r.lastTail == w.lastTail
      && (r.food.None? <==> |r.segments| == CellCount)
      && (r.food.Some? ==> InArena(r.food.value) && r.food.value !in r.segments)
  {
    if !grow then w
    else
      var grown := w.segments + [w.lastTail.value];
      w.(segments := grown, food := SpawnFood(grown))
  }

  // ---------------------------------------------------------------------
  // Spawning and reset
  // ---------------------------------------------------------------------

  /** The start of a round: the two-segment snake heading up and one food
      off the snake. `LastTailPosition` starts empty. */
  ghost function Initial(): (r: World)
    ensures r.segments == InitialSegments && r.heading == Up && r.lastTail.None?
    ensures r.food.Some? && InArena(r.food.value) && r.food.value !in r.segments
  {
    ShortIsPlaceable(InitialSegments);
    World(InitialSegments, InitialHeading, SpawnFood(InitialSegments), None)
  }

  /** Game over: every segment and the food go, and the round starts again.
      `LastTailPosition` is a resource the reset does not touch. */
  ghost function Reset(w: World): (r: World)
    ensures r.segments == InitialSegments && r.heading == Up
    ensures r.food.Some? && InArena(r.food.value) && r.food.value !in r.segments
    ensures r.lastTail == w.lastTail
  {
    Initial().(lastTail := w.lastTail)
  }

  // ---------------------------------------------------------------------
  // The tick
  // ---------------------------------------------------------------------

  /** At most 121 entities carry a position: the count the food spawner's
      guard compares with. */
  predicate Bounded(w: World) {
    |w.segments| + |FoodCells(w.food)| <= CellCount
  }

  /** The state every tick starts from and ends in: at least two segments
      on distinct arena cells, and the food (if any) on another arena cell. */
  predicate Valid(w: World) {
    && |w.segments| >= 2
    && Distinct(w.segments)
    && AllInArena(w.segments)
    && (w.food.Some? ==> InArena(w.food.value) && w.food.value !in w.segments)
  }

  /** A valid world never holds more than 121 entities. */
  lemma ValidIsBounded(w: World)
    requires Valid(w)
    ensures Bounded(w)
  {
    var all := w.segments + FoodCells(w.food);
    assert Distinct(all) by {
      forall i, j | 0 <= i < j < |all| ensures all[i] != all[j] {
        if j >= |w.segments| {
          assert all[j] == w.food.value;
          if i < |w.segments| {
            assert all[i] == w.segments[i];
          }
        }
      }
    }
    assert AllInArena(all);
    DistinctInArenaBound(all);
  }

  /** One fixed-timestep tick: steer with the frames' key states, move,
      eat, then either reset (on game over, dropping any growth) or grow. */
  ghost function Tick(w: World, keys: seq<Option<Direction>>): (r: Stepped)
    requires Bounded(w)
    ensures Bounded(r.world)
    ensures r.reset ==> r.world.segments == InitialSegments && r.world.heading == Up
    ensures !r.reset ==>
      |r.world.segments| == |w.segments| || |r.world.segments| == |w.segments| + 1
  {
    var moved := Move(w.(heading := Steer(w.heading, keys)));
    var eaten := Eat(moved.world);
    if moved.gameOver then Stepped(Reset(eaten.world), true)
    else if eaten.grow then
      ShortIsPlaceable(eaten.world.segments + [eaten.world.lastTail.value]);
      Stepped(Growth(eaten.world, true), false)
    else Stepped(Growth(eaten.world, false), false)
  }

  /** Ticks keep a valid world valid: the snake keeps at least two segments
      on distinct arena cells and the food stays off the snake. */
  lemma TickPreservesValid(w: World, keys: seq<Option<Direction>>)
    requires Valid(w) && Bounded(w)
    ensures Valid(Tick(w, keys).world)
  {
  }

  /** A request for the reverse heading is ignored: unless the round was
      reset, the heading is unchanged. */
  lemma ReversalIgnored(w: World)
    requires Bounded(w)
    ensures !Tick(w, [Some(Opposite(w.heading))]).reset ==>
      Tick(w, [Some(Opposite(w.heading))]).world.heading == w.heading
  {
  }

  /** The round resets exactly when the moved head leaves the arena or lands
      on a moved body segment; then the world is the fixed start
      configuration with a fresh food off the snake. */
  lemma TickResetsOnCollision(w: World, keys: seq<Option<Direction>>)
    requires Bounded(w) && |w.segments| >= 1
    ensures var n := Move(w.(heading := Steer(w.heading, keys))).world.segments;
      Tick(w, keys).reset <==>
        !InArena(n[0]) || exists i :: 1 <= i < |n| && n[i] == n[0]
    ensures Tick(w, keys).reset ==>
      var r := Tick(w, keys).world;
      && r.segments == InitialSegments && r.heading == Up
      && r.food.Some? && r.food.value !in r.segments
  {
  }

  /** Without a reset the snake grows by one exactly when the moved head
      lands on the food, and the new last segment fills the cell the tail
      left; otherwise its length is unchanged. */
  lemma TickGrowsOnFood(w: World, keys: seq<Option<Direction>>)
    requires Bounded(w) && |w.segments| >= 1
    ensures !Tick(w, keys).reset ==>
      var head := Step(w.segments[0], Steer(w.heading, keys));
      var r := Tick(w, keys).world;
      && (w.food == Some(head) ==>
            |r.segments| == |w.segments| + 1 && r.segments[|w.segments|] == w.segments[|w.segments| - 1])
      && (w.food != Some(head) ==> |r.segments| == |w.segments| && r.food == w.food)
  {
  }
}
