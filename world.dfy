/**
 * The parts of the game that the decision core only reads: tiles, entities,
 * the maze and the Pac-Man entity. Maze.java, Tile.java, TileState.java,
 * Entity.java, GhostEntity.java and PacmanEntity.java are not part of this
 * model; these are the smallest stand-ins the core's code needs.
 */
module World {
  import opened Directions

  /** A tile position (x, y). */
  type Cell = (int, int)

  /** The tile states the core names; every other state is `Other`. */
  datatype TileState = Pellet | PowerPellet | Other(code: nat)

  datatype Tile = Tile(position: Cell, state: TileState)

  /** An entity of the maze, reduced to what the core asks of it. */
  datatype Entity =
    | Ghost(position: Cell, frightened: bool)
    | Fruit(position: Cell)
    | OtherEntity(position: Cell)

  /** The tile grid is indexed tiles[y][x], every row as wide as the first. */
  predicate Rectangular(tiles: seq<seq<TileState>>)
  {
    |tiles| > 0 && forall j :: 0 <= j < |tiles| ==> |tiles[j]| == |tiles[0]|
  }

  predicate InGrid(tiles: seq<seq<TileState>>, c: Cell)
  {
    Rectangular(tiles) && 0 <= c.1 < |tiles| && 0 <= c.0 < |tiles[0]|
  }

  /** The neighbour of `c` in direction `d` on the wrapping grid: one step, wrapping at the edges. */
  function Neighbour(tiles: seq<seq<TileState>>, c: Cell, d: Direction): (n: Cell)
    requires InGrid(tiles, c)
    ensures InGrid(tiles, n)
  {
    (Wrap(c.0 + d.Dx(), |tiles[0]|), Wrap(c.1 + d.Dy(), |tiles|))
  }

  /**
   * The source computes the neighbour as (x + dx + width) % width. The
   * operand is never negative, so Java's truncating remainder and Dafny's
   * Euclidean one agree, and both give the wrapped step.
   */
  lemma NeighbourByRemainder(tiles: seq<seq<TileState>>, c: Cell, d: Direction)
    requires InGrid(tiles, c)
    ensures Neighbour(tiles, c, d) ==
            ((c.0 + d.Dx() + |tiles[0]|) % |tiles[0]|, (c.1 + d.Dy() + |tiles|) % |tiles|)
  {
    ModOneStep(c.0 + d.Dx() + |tiles[0]|, |tiles[0]|);
    ModOneStep(c.1 + d.Dy() + |tiles|, |tiles|);
  }

  /** Computes the neighbour the way the search does, with a remainder. */
  method NeighbourCell(tiles: seq<seq<TileState>>, c: Cell, d: Direction) returns (n: Cell)
    requires InGrid(tiles, c)
    ensures n == Neighbour(tiles, c, d) && InGrid(tiles, n)
  {
    n := ((c.0 + d.Dx() + |tiles[0]|) % |tiles[0]|, (c.1 + d.Dy() + |tiles|) % |tiles|);
    NeighbourByRemainder(tiles, c, d);
  }

  /** A coordinate at most one step outside [0, size) brought back in by wrapping. */
  function Wrap(v: int, size: nat): int
  {
    if v < 0 then v + size else if v >= size then v - size else v
  }

  lemma ModOneStep(v: int, size: nat)
    requires 0 < size && 0 <= v <= 2 * size
    ensures v % size == Wrap(v - size, size)
  {
    if v == 2 * size {
      assert v == 2 * size + 0;
    } else if v >= size {
      assert v == 1 * size + (v - size);
    } else {
      assert v == 0 * size + v;
    }
  }

  /** The game's maze: its tiles and entities change between ticks. */
  class Maze {
    var tiles: seq<seq<TileState>>
    var entities: seq<Entity>
    /** The level manager's score. */
    var score: int
    /** TileState.isPassable, as the game defines it. */
    const isPassable: TileState -> bool
    /** Tile.isWalkable, as the game defines it. */
    const isWalkable: TileState -> bool

    ghost predicate Valid()
      reads this
    {
      Rectangular(tiles)
    }

    constructor (tiles: seq<seq<TileState>>, entities: seq<Entity>, isPassable: TileState -> bool, isWalkable: TileState -> bool)
      requires Rectangular(tiles)
      ensures Valid() && this.tiles == tiles && this.entities == entities && score == 0
      ensures this.isPassable == isPassable && this.isWalkable == isWalkable
    {
      this.tiles := tiles;
      this.entities := entities;
      this.score := 0;
      this.isPassable := isPassable;
      this.isWalkable := isWalkable;
    }
  }

  /** The Pac-Man entity: the game moves it and updates its counters. */
  class PacmanEntity {
    const maze: Maze
    var position: Cell
    var direction: Direction
    /** The directions canMove answers true for on this tick. */
    var movable: set<Direction>
    var alive: bool
    var pelletsEaten: int
    var powerPelletsEaten: int
    var ghostsEaten: int
    var advancedToNextLevel: bool
    var ticksAlive: int

    constructor (maze: Maze, position: Cell, direction: Direction)
      ensures this.maze == maze && this.position == position && this.direction == direction
      ensures alive && movable == {} && pelletsEaten == powerPelletsEaten == ghostsEaten == ticksAlive == 0
      ensures !advancedToNextLevel
    {
      this.maze := maze;
      this.position := position;
      this.direction := direction;
      movable := {};
      alive := true;
      pelletsEaten, powerPelletsEaten, ghostsEaten, ticksAlive := 0, 0, 0, 0;
      advancedToNextLevel := false;
    }

    method Kill()
      modifies this`alive
      ensures !alive
    {
      alive := false;
    }
  }
}
