/** The grid vocabulary of the game: the fixed arena, positions on it, and
    the four headings with their reversal and unit step. */
module Grid {
  import opened Seqs

  /** The arena is `ARENA = (11, 11)` cells. */
  const Width: int := 11
  const Height: int := 11
  const CellCount: int := Width * Height

  /** A cell, as the source's `Position(i32, i32)`. Coordinates of a live game
      never leave [-1, 11], so the 32-bit width never matters. */
  datatype Position = Position(x: int, y: int)

  datatype Direction = Left | Up | Right | Down

  /** The `(dx, dy)` pair returned by `delta`. */
  datatype Offset = Offset(dx: int, dy: int)

  function Abs(n: int): nat {
    if n < 0 then -n else n
  }

  /** The unit step of a heading: exactly one component is 1 or -1. */
  function Delta(d: Direction): (r: Offset)
    ensures (r.dx == 0 && Abs(r.dy) == 1) || (r.dy == 0 && Abs(r.dx) == 1)
  {
    match d
    case Left => Offset(-1, 0)
    case Up => Offset(0, 1)
    case Right => Offset(1, 0)
    case Down => Offset(0, -1)
  }

  /** The reverse heading: a different heading whose step undoes this one. */
  function Opposite(d: Direction): (r: Direction)
    ensures r != d
    ensures Delta(r) == Offset(-Delta(d).dx, -Delta(d).dy)
  {
    match d
    case Left => Right
    case Up => Down
    case Right => Left
    case Down => Up
  }

  /** The cell one step from `p` along `d`: always a neighbour of `p`. */
  function Step(p: Position, d: Direction): (r: Position)
    ensures r != p
    ensures Abs(r.x - p.x) + Abs(r.y - p.y) == 1
  {
    Position(p.x + Delta(d).dx, p.y + Delta(d).dy)
  }

  /** The bounds test of the movement system: [0, 11) x [0, 11). */
  predicate InArena(p: Position) {
    0 <= p.x < Width && 0 <= p.y < Height
  }

  /** Every cell of `s` is inside the arena. */
  predicate AllInArena(s: seq<Position>) {
    forall i :: 0 <= i < |s| ==> InArena(s[i])
  }

  /** A draw the food spawner's rejection loop accepts: an arena cell that
      no entry of `occupied` holds. */
  predicate Free(occupied: seq<Position>, p: Position) {
    InArena(p) && p !in occupied
  }

  /** Every cell of the arena, row by row: cell `i` is column `i % 11` of
      row `i / 11`. */
  function ArenaSeq(): seq<Position> {
    seq(CellCount, i requires 0 <= i < CellCount => Position(i % Width, i / Width))
  }

  lemma OppositeInvolution(d: Direction)
    ensures Opposite(Opposite(d)) == d
  {
  }

  /** Going one step and then one step back returns to the start. */
  lemma StepBack(p: Position, d: Direction)
    ensures Step(Step(p, d), Opposite(d)) == p
  {
  }

  /** `Up` raises y, `Down` lowers it, `Right` raises x, `Left` lowers it. */
  lemma DeltaOrientation(p: Position)
    ensures Step(p, Up).y == p.y + 1 && Step(p, Up).x == p.x
    ensures Step(p, Down).y == p.y - 1 && Step(p, Down).x == p.x
    ensures Step(p, Right).x == p.x + 1 && Step(p, Right).y == p.y
    ensures Step(p, Left).x == p.x - 1 && Step(p, Left).y == p.y
  {
  }

  /** The arena sequence lists each in-arena cell exactly once. */
  lemma ArenaSeqCovers()
    ensures Distinct(ArenaSeq())
    ensures forall p :: p in ArenaSeq() <==> InArena(p)
  {
    var a := ArenaSeq();
    forall p | InArena(p) ensures p in a {
      var i := p.y * Width + p.x;
      assert a[i] == p;
    }
  }

  /** The arena holds 121 cells. */
  lemma ArenaCellCount()
    ensures |Elems(ArenaSeq())| == CellCount
    ensures forall p :: p in Elems(ArenaSeq()) <==> InArena(p)
  {
    ArenaSeqCovers();
    ElemsCard(ArenaSeq());
  }

  /** Pigeonhole: fewer than 121 entries cannot cover the arena, so a free
      in-arena cell exists. This is what lets the food spawner's rejection
      loop stop. */
  lemma Pigeonhole(occupied: seq<Position>)
    requires |occupied| < CellCount
    ensures exists p :: Free(occupied, p)
  {
    if forall p :: !Free(occupied, p) {
      ArenaCellCount();
      forall p | p in Elems(ArenaSeq()) ensures p in Elems(occupied) {
        assert !Free(occupied, p);
      }
      SubsetCard(Elems(ArenaSeq()), Elems(occupied));
      ElemsCard(occupied);
      assert false;
    }
  }

  /** A distinct sequence of in-arena cells has at most 121 entries. */
  lemma DistinctInArenaBound(s: seq<Position>)
    requires Distinct(s)
    requires AllInArena(s)
    ensures |s| <= CellCount
  {
    ArenaCellCount();
    assert Elems(s) <= Elems(ArenaSeq());
    SubsetCard(Elems(s), Elems(ArenaSeq()));
    ElemsCard(s);
  }
}
