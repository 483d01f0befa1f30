/**
 * TournamentBehavior: the behaviour used to play a trained network. It
 * builds the same 24 inputs as the training behaviour and decides the same
 * way, but keeps no stall guard and reports no score.
 */
module Tournament {
  import opened Wrappers
  import opened Directions
  import opened World
  import opened Searching
  import opened Sensing

  class TournamentBehavior {
    /** The trained network: 24 inputs to its outputs. */
    const calculate: seq<real> -> seq<real>
    var pacman: PacmanEntity?
    var searcher: Searcher?

    /** The searcher exists exactly when Pac-Man is known, and searches Pac-Man's maze. */
    ghost predicate Valid()
      reads this
    {
      (pacman == null <==> searcher == null) && (pacman != null ==> searcher.maze == pacman.maze)
    }

    constructor (calculate: seq<real> -> seq<real>)
      ensures Valid() && this.calculate == calculate && pacman == null
    {
      this.calculate := calculate;
      pacman := null;
      searcher := null;
    }

    /** The Pac-Man this call acts on: the one remembered from the first call. */
    ghost function Agent(entity: PacmanEntity): PacmanEntity
      reads this
    {
      if pacman == null then entity else pacman
    }

    /**
     * getDirection. The first call remembers the entity and makes a searcher
     * for its maze; every call then turns the 24 inputs for Pac-Man's
     * surroundings into a turn relative to its facing, or fails as the
     * source's arg-max and switch do.
     */
    method GetDirection(entity: PacmanEntity) returns (r: Result<Direction, string>, ghost inputs: seq<real>)
      requires Valid() && Agent(entity).maze.Valid()
      requires InGrid(Agent(entity).maze.tiles, Agent(entity).position)
      modifies this
      ensures Valid() && pacman == old(Agent(entity))
      ensures old(pacman) != null ==> searcher == old(searcher)
      ensures old(pacman) == null ==> fresh(searcher)
      ensures Sensed(ViewOf(pacman), inputs) && r == Choose(pacman.direction, calculate(inputs))
    {
      if pacman == null {
        pacman := entity;
        searcher := new Searcher(entity.maze);
      }
      r, inputs := Steer(searcher, pacman, calculate);
    }
  }
}
