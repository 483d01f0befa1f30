/**
 * What both Pac-Man behaviours share: the 24 network inputs, the fruit
 * test, the arg-max over the network outputs and the turn it selects.
 * NeatPacmanBehavior.java and TournamentBehavior.java each carry their own
 * copy of this code; the two copies compute the same inputs and choice.
 */
module Sensing {
  import opened Wrappers
  import opened Directions
  import opened World
  import opened Bfs
  import opened Searching
  import opened Scan

  /** The float a boolean input becomes: 1 for true, 0 for false. */
  function Flag(b: bool): real
  {
    if b then 1.0 else 0.0
  }

  function Bits(bits: seq<bool>): (r: seq<real>)
    ensures |r| == |bits| && forall i :: 0 <= i < |bits| ==> r[i] == Flag(bits[i])
    ensures forall i :: 0 <= i < |r| ==> r[i] == 0.0 || r[i] == 1.0
  {
    seq(|bits|, i requires 0 <= i < |bits| => Flag(bits[i]))
  }

  /** The ghost inputs: (pathClear, frightenedGhostAhead) of each direction, side by side. */
  function GhostBits(pairs: seq<(bool, bool)>): (r: seq<real>)
    ensures |r| == 2 * |pairs| && forall i :: 0 <= i < |r| ==> r[i] == 0.0 || r[i] == 1.0
    ensures forall k :: 0 <= k < |pairs| ==> r[2 * k] == Flag(pairs[k].0) && r[2 * k + 1] == Flag(pairs[k].1)
  {
    if pairs == [] then []
    else [Flag(pairs[0].0), Flag(pairs[0].1)] + GhostBits(pairs[1..])
  }

  /**
   * The input vector of the network: movement legality for forward, left,
   * right and behind, then the four search bits of the pellet, the power
   * pellet and the fruit searches, then the ghost pairs.
   */
  function Features(canMove: seq<bool>, pellet: seq<bool>, power: seq<bool>, fruit: seq<bool>,
                    pairs: seq<(bool, bool)>): (r: seq<real>)
    requires |canMove| == |pellet| == |power| == |fruit| == |pairs| == 4
    ensures |r| == 24 && forall i :: 0 <= i < 24 ==> r[i] == 0.0 || r[i] == 1.0
    ensures forall i :: 0 <= i < 4 ==>
              r[i] == Flag(canMove[i]) && r[4 + i] == Flag(pellet[i]) &&
              r[8 + i] == Flag(power[i]) && r[12 + i] == Flag(fruit[i]) &&
              r[16 + 2 * i] == Flag(pairs[i].0) && r[17 + 2 * i] == Flag(pairs[i].1)
  {
    Bits(canMove) + Bits(pellet) + Bits(power) + Bits(fruit) + GhostBits(pairs)
  }

  /** Writes four boolean inputs at `index`, as four `inputs[index++] = b ? 1f : 0f` do. */
  method PutBits(inputs: array<real>, index: nat, bits: seq<bool>) returns (next: nat)
    requires |bits| == 4 && index + 4 <= inputs.Length
    modifies inputs
    ensures next == index + 4
    ensures forall m :: 0 <= m < 4 ==> inputs[index + m] == Flag(bits[m])
    ensures forall j :: 0 <= j < inputs.Length && !(index <= j < next) ==> inputs[j] == old(inputs[j])
  {
    next := index;
    inputs[next] := if bits[0] then 1.0 else 0.0;
    next := next + 1;
    inputs[next] := if bits[1] then 1.0 else 0.0;
    next := next + 1;
    inputs[next] := if bits[2] then 1.0 else 0.0;
    next := next + 1;
    inputs[next] := if bits[3] then 1.0 else 0.0;
    next := next + 1;
  }

  /** Writes one direction's pair at `index` and `index + 1`, as the two `inputs[index++] = ...` do. */
  method PutPair(inputs: array<real>, index: nat, pathClear: bool, frightenedGhostAhead: bool) returns (next: nat)
    requires index + 2 <= inputs.Length
    modifies inputs
    ensures next == index + 2
    ensures inputs[index] == Flag(pathClear) && inputs[index + 1] == Flag(frightenedGhostAhead)
    ensures forall j :: 0 <= j < inputs.Length && !(index <= j < next) ==> inputs[j] == old(inputs[j])
  {
    next := index;
    inputs[next] := if pathClear then 1.0 else 0.0;
    next := next + 1;
    inputs[next] := if frightenedGhostAhead then 1.0 else 0.0;
    next := next + 1;
  }

  /**
   * addGhostInputs: for UP, LEFT, RIGHT and DOWN in turn, scans from
   * Pac-Man's tile and writes pathClear and frightenedGhostAhead at
   * index, index + 1, ...; nothing else of `inputs` changes.
   */
  method AddGhostInputs(inputs: array<real>, index: nat, tiles: seq<seq<TileState>>, walkable: TileState -> bool,
                        entities: seq<Entity>, here: Cell)
    requires InGrid(tiles, here) && index + 8 <= inputs.Length
    modifies inputs
    ensures forall m :: 0 <= m < 4 ==>
              inputs[index + 2 * m] == Flag(GhostPairs(tiles, walkable, Ghosts(entities), here)[m].0) &&
              inputs[index + 2 * m + 1] == Flag(GhostPairs(tiles, walkable, Ghosts(entities), here)[m].1)
    ensures forall j :: 0 <= j < inputs.Length && !(index <= j < index + 8) ==> inputs[j] == old(inputs[j])
  {
    var directions := ScanOrder;
    var ghosts := Ghosts(entities);
    ghost var pairs := GhostPairs(tiles, walkable, ghosts, here);
    var k := 0;
    var i := index;
    while k < 4
      invariant 0 <= k <= 4 && i == index + 2 * k
      invariant forall m :: 0 <= m < k ==>
                  inputs[index + 2 * m] == Flag(pairs[m].0) && inputs[index + 2 * m + 1] == Flag(pairs[m].1)
      invariant forall j :: 0 <= j < inputs.Length && !(index <= j < i) ==> inputs[j] == old(inputs[j])
    {
      var dir := directions[k];
      var pathClear, frightenedGhostAhead := ScanDirection(tiles, walkable, ghosts, here, dir);
      assert (pathClear, frightenedGhostAhead) == pairs[k];
      i := PutPair(inputs, i, pathClear, frightenedGhostAhead);
      k := k + 1;
    }
  }

  /** Some fruit entity stands on the tile. */
  predicate ContainsFruit(entities: seq<Entity>, tile: Tile)
  {
    exists k :: 0 <= k < |entities| && entities[k].Fruit? && entities[k].position == tile.position
  }

  /** tileContainsFruit: scans the entities in order and answers at the first fruit on the tile. */
  method TileContainsFruit(entities: seq<Entity>, tile: Tile) returns (found: bool)
    ensures found <==> ContainsFruit(entities, tile)
  {
    var tilePosition := tile.position;
    var k := 0;
    while k < |entities|
      invariant k <= |entities|
      invariant forall j :: 0 <= j < k ==> !(entities[j].Fruit? && entities[j].position == tilePosition)
    {
      if entities[k].Fruit? && entities[k].position == tilePosition {
        return true;
      }
      k := k + 1;
    }
    return false;
  }

  /** The pellet search's target: a pellet or a power pellet. */
  predicate PelletTarget(tile: Tile)
  {
    tile.state == Pellet || tile.state == PowerPellet
  }

  /** The power-pellet search's target. */
  predicate PowerTarget(tile: Tile)
  {
    tile.state == PowerPellet
  }

  /** Some nearest walk to a target leaves `s` by the move `d`. */
  ghost predicate LeadsOff(P: Space, s: Cell, d: Direction)
  {
    exists moves :: Nearest(P, s, moves) && |moves| > 0 && moves[0] == d
  }

  /** Some target can be reached from `s` by at least one move. */
  ghost predicate Reachable(P: Space, s: Cell)
  {
    exists moves :: TargetWalk(P, s, moves) && |moves| > 0
  }

  /** What a search promises about its four bits: see Searcher.GetDirectionsToClosestTarget. */
  ghost predicate Answer(P: Space, s: Cell, f: Direction, bits: seq<bool>)
  {
    |bits| == 4 &&
    (forall i {:trigger LeadsOff(P, s, Relative(f, i))} :: 0 <= i < 4 && bits[i] ==> LeadsOff(P, s, Relative(f, i))) &&
    ((exists i :: 0 <= i < 4 && bits[i]) ==> Reachable(P, s)) &&
    (Reachable(P, s) ==> (exists i :: 0 <= i < 4 && bits[i])) &&
    FlagsEveryTarget(P, s, f, bits) &&
    BitsAreFirstMoves(P, s, f, bits)
  }

  /** canMove for forward, left, right and behind. */
  function Legal(movable: set<Direction>, facing: Direction): (r: seq<bool>)
    ensures |r| == 4 && forall i :: 0 <= i < 4 ==> (r[i] <==> Relative(facing, i) in movable)
  {
    [facing in movable, facing.Left() in movable, facing.Right() in movable, facing.Behind() in movable]
  }

  /** One call of getDirectionsToClosestTarget from Pac-Man's tile and facing. */
  method Search(searcher: Searcher, pacman: PacmanEntity, target: Tile -> bool) returns (bits: seq<bool>)
    requires searcher.maze == pacman.maze && pacman.maze.Valid()
    ensures Answer(Space(pacman.maze.tiles, pacman.maze.isPassable, target), pacman.position, pacman.direction, bits)
  {
    ghost var dequeues: nat, resets: nat;
    bits, dequeues, resets := searcher.GetDirectionsToClosestTarget(pacman.position.0, pacman.position.1,
                                                                   pacman.direction, target);
    assert searcher.SpaceFor(target) == Space(pacman.maze.tiles, pacman.maze.isPassable, target);
  }

  /** What getDirection reads of Pac-Man and its maze, as one value. */
  datatype View = View(tiles: seq<seq<TileState>>, passable: TileState -> bool, walkable: TileState -> bool,
                       entities: seq<Entity>, position: Cell, direction: Direction, movable: set<Direction>)

  function ViewOf(pacman: PacmanEntity): (v: View)
    reads pacman, pacman.maze
    ensures v.tiles == pacman.maze.tiles && v.entities == pacman.maze.entities
    ensures v.position == pacman.position && v.direction == pacman.direction
  {
    View(pacman.maze.tiles, pacman.maze.isPassable, pacman.maze.isWalkable, pacman.maze.entities,
         pacman.position, pacman.direction, pacman.movable)
  }

  /** The inputs are the 24-entry layout of Pac-Man's legal moves, three searches and ghost scans. */
  ghost predicate Sensed(v: View, inputs: seq<real>)
    requires Rectangular(v.tiles) && InGrid(v.tiles, v.position)
  {
    exists pellet, power, fruit ::
      Answer(Space(v.tiles, v.passable, PelletTarget), v.position, v.direction, pellet) &&
      Answer(Space(v.tiles, v.passable, PowerTarget), v.position, v.direction, power) &&
      Answer(Space(v.tiles, v.passable, t => ContainsFruit(v.entities, t)), v.position, v.direction, fruit) &&
      inputs == Features(Legal(v.movable, v.direction), pellet, power, fruit,
                         GhostPairs(v.tiles, v.walkable, Ghosts(v.entities), v.position))
  }

  /** The four inputs at `offset`, read back as bits: an input is set when it is 1. */
  function Read(inputs: seq<real>, offset: nat): (bits: seq<bool>)
    requires offset + 4 <= |inputs|
    ensures |bits| == 4 && forall i :: 0 <= i < 4 ==> (bits[i] <==> inputs[offset + i] == 1.0)
  {
    seq(4, i requires 0 <= i < 4 => inputs[offset + i] == 1.0)
  }

  /**
   * The four inputs at `offset` read as a search from `s` facing `f`: an
   * input that is 1 names the first move of a nearest walk to a target,
   * every target at the nearest distance is named by an input that is 1,
   * and the four are all 0 exactly when no target can be reached.
   */
  ghost predicate SearchSlots(P: Space, s: Cell, f: Direction, inputs: seq<real>, offset: nat)
    requires offset + 4 <= |inputs|
  {
    (forall i :: 0 <= i < 4 && inputs[offset + i] == 1.0 ==> LeadsOff(P, s, Relative(f, i))) &&
    (Reachable(P, s) <==> exists i :: offset <= i < offset + 4 && inputs[i] == 1.0) &&
    FlagsEveryTarget(P, s, f, Read(inputs, offset)) &&
    BitsAreFirstMoves(P, s, f, Read(inputs, offset))
  }

  /** Four inputs at `offset` that carry a search's bits say what the search promises. */
  lemma AnswerSlots(P: Space, s: Cell, f: Direction, bits: seq<bool>, inputs: seq<real>, offset: nat)
    requires Answer(P, s, f, bits) && offset + 4 <= |inputs|
    requires forall i :: 0 <= i < 4 ==> inputs[offset + i] == Flag(bits[i])
    ensures SearchSlots(P, s, f, inputs, offset)
  {
    assert Read(inputs, offset) == bits;
    if Reachable(P, s) {
      var i :| 0 <= i < 4 && bits[i];
      assert inputs[offset + i] == 1.0;
    }
    if i :| offset <= i < offset + 4 && inputs[i] == 1.0 {
      assert bits[i - offset];
    }
  }

  /** Reading the inputs back: the pellet, power pellet and fruit inputs say what their searches found. */
  lemma SensedSearches(v: View, inputs: seq<real>)
    requires Rectangular(v.tiles) && InGrid(v.tiles, v.position) && Sensed(v, inputs)
    ensures |inputs| == 24
    ensures SearchSlots(Space(v.tiles, v.passable, PelletTarget), v.position, v.direction, inputs, 4)
    ensures SearchSlots(Space(v.tiles, v.passable, PowerTarget), v.position, v.direction, inputs, 8)
    ensures SearchSlots(Space(v.tiles, v.passable, t => ContainsFruit(v.entities, t)), v.position, v.direction, inputs, 12)
  {
    var pellet, power, fruit :|
      Answer(Space(v.tiles, v.passable, PelletTarget), v.position, v.direction, pellet) &&
      Answer(Space(v.tiles, v.passable, PowerTarget), v.position, v.direction, power) &&
      Answer(Space(v.tiles, v.passable, t => ContainsFruit(v.entities, t)), v.position, v.direction, fruit) &&
      inputs == Features(Legal(v.movable, v.direction), pellet, power, fruit,
                         GhostPairs(v.tiles, v.walkable, Ghosts(v.entities), v.position));
    AnswerSlots(Space(v.tiles, v.passable, PelletTarget), v.position, v.direction, pellet, inputs, 4);
    AnswerSlots(Space(v.tiles, v.passable, PowerTarget), v.position, v.direction, power, inputs, 8);
    AnswerSlots(Space(v.tiles, v.passable, t => ContainsFruit(v.entities, t)), v.position, v.direction, fruit, inputs, 12);
  }

  /**
   * Reading the inputs back, moves and ghosts: the first four inputs are 1
   * exactly for the legal moves, and no ghost pair reads (0, 1).
   */
  lemma SensedMovesAndGhosts(v: View, inputs: seq<real>)
    requires Rectangular(v.tiles) && InGrid(v.tiles, v.position) && Sensed(v, inputs)
    ensures |inputs| == 24
    ensures forall i :: 0 <= i < 4 ==> (inputs[i] == 1.0 <==> Relative(v.direction, i) in v.movable)
    ensures forall k :: 0 <= k < 4 ==> !(inputs[16 + 2 * k] == 0.0 && inputs[17 + 2 * k] == 1.0)
  {
    GhostPairsNeverBlockedAndFrightened(v.tiles, v.walkable, Ghosts(v.entities), v.position);
  }

  /**
   * The inputs getDirection assembles: three searches from Pac-Man's tile
   * and facing, then the 16 search and legality inputs, then the ghost
   * inputs.
   */
  method BuildInputs(searcher: Searcher, pacman: PacmanEntity) returns (inputs: array<real>)
    requires searcher.maze == pacman.maze && pacman.maze.Valid()
    requires InGrid(pacman.maze.tiles, pacman.position)
    ensures fresh(inputs) && Sensed(ViewOf(pacman), inputs[..])
  {
    var maze := pacman.maze;
    var entities := maze.entities;
    var toPellet := Search(searcher, pacman, PelletTarget);
    var toPower := Search(searcher, pacman, PowerTarget);
    var toFruit := Search(searcher, pacman, t => ContainsFruit(entities, t));
    inputs := FillInputs(Legal(pacman.movable, pacman.direction), toPellet, toPower, toFruit,
                         maze.tiles, maze.isWalkable, entities, pacman.position);
  }

  /**
   * From Pac-Man's surroundings to a turn: the inputs, the network's
   * outputs for them, the arg-max and the switch on it.
   */
  method Steer(searcher: Searcher, pacman: PacmanEntity, calculate: seq<real> -> seq<real>)
    returns (r: Result<Direction, string>, ghost inputs: seq<real>)
    requires searcher.maze == pacman.maze && pacman.maze.Valid()
    requires InGrid(pacman.maze.tiles, pacman.position)
    ensures Sensed(ViewOf(pacman), inputs) && r == Choose(pacman.direction, calculate(inputs))
  {
    var inputArray := BuildInputs(searcher, pacman);
    inputs := inputArray[..];
    var outputs := calculate(inputArray[..]);
    if |outputs| == 0 {
      return Failure("Index 0 out of bounds"), inputs;
    }
    var index := ArgMax(outputs);
    r := Decide(pacman.direction, index);
  }

  /** The 24 inputs, written in order with a running index. */
  method FillInputs(canMove: seq<bool>, pellet: seq<bool>, power: seq<bool>, fruit: seq<bool>,
                    tiles: seq<seq<TileState>>, walkable: TileState -> bool, entities: seq<Entity>, here: Cell)
    returns (inputs: array<real>)
    requires |canMove| == |pellet| == |power| == |fruit| == 4 && InGrid(tiles, here)
    ensures fresh(inputs)
    ensures inputs[..] == Features(canMove, pellet, power, fruit, GhostPairs(tiles, walkable, Ghosts(entities), here))
  {
    inputs := new real[16 + 8];
    var index := 0;
    index := PutBits(inputs, index, canMove);
    index := PutBits(inputs, index, pellet);
    assert forall m :: 0 <= m < 4 ==> inputs[m] == Flag(canMove[m]) && inputs[4 + m] == Flag(pellet[m]);
    index := PutBits(inputs, index, power);
    index := PutBits(inputs, index, fruit);
    assert forall m :: 0 <= m < 4 ==>
             inputs[m] == Flag(canMove[m]) && inputs[4 + m] == Flag(pellet[m]) &&
             inputs[8 + m] == Flag(power[m]) && inputs[12 + m] == Flag(fruit[m]);
    AddGhostInputs(inputs, index, tiles, walkable, entities, here);
    ghost var pairs := GhostPairs(tiles, walkable, Ghosts(entities), here);
    assert forall m :: 0 <= m < 4 ==>
             inputs[m] == Flag(canMove[m]) && inputs[4 + m] == Flag(pellet[m]) &&
             inputs[8 + m] == Flag(power[m]) && inputs[12 + m] == Flag(fruit[m]);
    assert forall m :: 0 <= m < 4 ==>
             inputs[16 + 2 * m] == Flag(pairs[m].0) && inputs[16 + 2 * m + 1] == Flag(pairs[m].1);
    LayoutIsFeatures(inputs, canMove, pellet, power, fruit, pairs);
  }

  /** Twenty-four values laid out block by block are the network's input vector. */
  lemma LayoutIsFeatures(a: array<real>, canMove: seq<bool>, pellet: seq<bool>, power: seq<bool>, fruit: seq<bool>,
                         pairs: seq<(bool, bool)>)
    requires a.Length == 24 && |canMove| == |pellet| == |power| == |fruit| == |pairs| == 4
    requires forall m :: 0 <= m < 4 ==>
               a[m] == Flag(canMove[m]) && a[4 + m] == Flag(pellet[m]) &&
               a[8 + m] == Flag(power[m]) && a[12 + m] == Flag(fruit[m]) &&
               a[16 + 2 * m] == Flag(pairs[m].0) && a[16 + 2 * m + 1] == Flag(pairs[m].1)
    ensures a[..] == Features(canMove, pellet, power, fruit, pairs)
  {
    var expected := Features(canMove, pellet, power, fruit, pairs);
    forall j | 0 <= j < 24
      ensures a[j] == expected[j]
    {
      if j < 16 {
        var m := j % 4;
        assert j == m || j == 4 + m || j == 8 + m || j == 12 + m;
      } else {
        var m := (j - 16) / 2;
        assert j == 16 + 2 * m || j == 17 + 2 * m;
      }
    }
  }

  /** `index` is the first position of a greatest output. */
  predicate IsFirstMax(outputs: seq<real>, index: nat)
  {
    index < |outputs| &&
    (forall j :: 0 <= j < |outputs| ==> outputs[j] <= outputs[index]) &&
    (forall j :: 0 <= j < index ==> outputs[j] < outputs[index])
  }

  /** The first position of a greatest output, found from the left as the arg-max loop does. */
  function FirstMax(outputs: seq<real>): (index: nat)
    requires |outputs| > 0
    ensures IsFirstMax(outputs, index)
  {
    if |outputs| == 1 then 0
    else
      var k := FirstMax(outputs[..|outputs| - 1]);
      if outputs[|outputs| - 1] > outputs[k] then |outputs| - 1 else k
  }

  /** The arg-max loop: the first index among the greatest outputs. */
  method ArgMax(outputs: seq<real>) returns (index: nat)
    requires |outputs| > 0
    ensures IsFirstMax(outputs, index) && index == FirstMax(outputs)
  {
    index := 0;
    var max := outputs[0];
    var i := 1;
    while i < |outputs|
      invariant 1 <= i <= |outputs| && index < i && max == outputs[index]
      invariant index == FirstMax(outputs[..i])
    {
      assert outputs[..i + 1][..i] == outputs[..i];
      if outputs[i] > max {
        max := outputs[i];
        index := i;
      }
      i := i + 1;
    }
    assert outputs[..i] == outputs;
  }

  /**
   * The turn the network's outputs select: the arg-max mapped through the
   * switch. An empty output vector fails, as reading outputs[0] throws.
   */
  function Choose(facing: Direction, outputs: seq<real>): (r: Result<Direction, string>)
    ensures r.Success? <==> |outputs| > 0 && FirstMax(outputs) < 4
    ensures r.Success? ==> IsFirstMax(outputs, SlotOf(facing, r.value))
  {
    if |outputs| == 0 then Failure("Index 0 out of bounds") else Decide(facing, FirstMax(outputs))
  }

  /**
   * The switch on the chosen output: 0, 1, 2 and 3 turn to facing, left,
   * right and behind; any other index is the IllegalStateException.
   */
  function Decide(facing: Direction, index: nat): (r: Result<Direction, string>)
    ensures r.Success? <==> index < 4
    ensures r.Success? ==> SlotOf(facing, r.value) == index
  {
    match index
    case 0 => Success(facing)
    case 1 => Success(facing.Left())
    case 2 => Success(facing.Right())
    case 3 => Success(facing.Behind())
    case _ => Failure("Unexpected value")
  }

  /** Each of the four directions is chosen by exactly one output index. */
  lemma DecideCoversDirections(facing: Direction, d: Direction)
    ensures exists i: nat :: i < 4 && Decide(facing, i) == Success(d)
    ensures forall i: nat :: Decide(facing, i) == Success(d) ==> i == SlotOf(facing, d)
  {
    var i := SlotOf(facing, d);
    assert Relative(facing, i) == d;
    assert Decide(facing, i) == Success(d);
  }
}
