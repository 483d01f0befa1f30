# Pac-Man agent decision core

This project models the decision core of a Pac-Man game played by a neural
network agent, and proves properties of that model. On every game tick the
agent's behaviour turns Pac-Man's surroundings into 24 network inputs. The
inputs are:

- four inputs saying whether Pac-Man can move forward, left, right or behind;
- three breadth-first searches over the wrapping maze, to the nearest pellet
  or power pellet, the nearest power pellet and the nearest fruit, each giving
  four bits;
- for UP, LEFT, RIGHT and DOWN, a straight-line scan that reports
  `pathClear` and `frightenedGhostAhead`.

The network's outputs are then reduced by an arg-max and a switch to a turn
relative to Pac-Man's facing.

Two behaviours share this pipeline:

- `NeatPacmanBehavior` is used for training. It adds a stall guard and reports
  a fitness score to its NEAT client.
- `TournamentBehavior` plays a trained network. It has no stall guard and
  reports no score.

The modules are:

- `Directions`: the four directions and the agent-relative slots (forward,
  left, right, behind).
- `World`: stand-ins for the maze, its tiles and entities, and the Pac-Man
  entity. These are the only parts of the game the core reads or writes.
- `Bfs`: what the search computes, stated over walks on the wrapping grid.
  A walk only enters passable or target cells and never leaves a target.
  `Nearest` is a target walk that no other target walk is shorter than.
  This module also holds the search loop's invariant and the lemmas that
  keep it.
- `Searching`: the `Searcher` class, the breadth-first search written as
  the source writes it. It uses a `visited` array, a queue of nodes, and a
  result reset when a strictly closer target is found.
- `Scan`: the ghost line-of-sight scan, both as the source writes it and in
  the bounded form the rest of the model uses.
- `Sensing`: what both behaviours share:
  - the 24-entry input layout;
  - the fruit test;
  - the three searches;
  - the arg-max and the switch.
- `Neat`, `Tournament`: the two behaviour classes.

`Sensed(ViewOf(pacman), inputs)` states what the inputs are. Each search
bit set to 1 names the first move of a nearest walk to a target. Every
target at the nearest distance is named by some set bit. Some bit of a
search is set exactly when a target can be reached. The ghost
pairs are the scans' results. `Choose` states which turn the outputs
select: the first greatest output, mapped through the switch. An empty
output vector or an index of 4 or more is a failure.

A frightened ghost ahead leaves `pathClear` true and sets
`frightenedGhostAhead`, so that direction reads (1, 1). A ghost that is not
frightened gives (0, 0), and a wall or a clear lap gives (1, 0). The pair
(`pathClear` false, `frightenedGhostAhead` true) never occurs, and that is
what `Scan.GhostPairsNeverBlockedAndFrightened` proves.

## Model

| member | source | states |
|---|---|---|
| Searching.Searcher.GetDirectionsToClosestTarget | core/src/main/java/com/buaisociety/pacman/util/Searcher.java:32-105 | The result has four slots [forward, left, right, behind]. A set slot is the first move of a shortest walk to a target. Every target that a shortest walk of at least one move reaches is flagged: some set slot is the first move of a shortest walk to that very target (`FlagsEveryTarget`). Each nearest target contributes one slot only (`BitsAreFirstMoves`): there is a choice of one first move of a shortest walk for each nearest target such that the set slots are exactly the slots of the chosen moves, so a single nearest target sets a single bit. Some slot is set exactly when a target can be reached by at least one move. A start off the grid, or a start that is itself a target, gives no bits. The loop dequeues at most 1 + 4·W·H nodes and resets the result at most once. |
| Searching.Outcome | core/src/main/java/com/buaisociety/pacman/util/Searcher.java:48-104 | Once the queue is drained, the loop invariant yields the search's promise and its dequeue bound, which is counted over the visited cells. |
| Searching.MarkVisited | core/src/main/java/com/buaisociety/pacman/util/Searcher.java:60 | Marking a dequeued cell adds it to the visited cells at its distance, and marks nothing else. |
| Searching.Searcher.Step | core/src/main/java/com/buaisociety/pacman/util/Searcher.java:49-58 | A node that is off the grid or already visited is only dropped from the queue: the visited cells, the closest distance and the bits stay as they were. Every other node's cell becomes visited at the node's distance: the queue, the closest distance and the bits then change as `VisitEffect` states, the predicate `Visit` also ensures: a target leaves the rest of the queue as it was, updates the closest distance and resets or sets the slot of its first move as `RecordTarget` states, and any other cell appends exactly its `Appended` neighbours with the closest distance and bits unchanged. Either way the search invariant is kept, and every set slot stays backed by a visited cell's recorded walk. |
| Searching.Searcher.Visit | core/src/main/java/com/buaisociety/pacman/util/Searcher.java:60-101 | Marks the cell visited at its distance, then changes the queue, the closest distance and the bits as `VisitEffect` states. A target leaves the queue as it was and updates the closest distance and the bits as `RecordTarget` states. Any other cell appends exactly its `Appended` neighbours, in Direction.values() order, and leaves the closest distance and the bits unchanged. The invariant is kept, and each visited cell keeps a walk of its distance. |
| Searching.Searcher.RecordTarget | core/src/main/java/com/buaisociety/pacman/util/Searcher.java:63-81 | The closest distance becomes the target's distance when there was none or it is strictly smaller, and stays otherwise. A strictly closer target resets the bits to all false, plus the slot of its first move. A target at the closest distance adds the slot of its first move; a farther target, or the start itself, sets no bit. The invariant is kept, and every set slot is backed by the recorded walk of a visited cell (`Backed`). |
| Searching.Searcher.Expand | core/src/main/java/com/buaisociety/pacman/util/Searcher.java:83-101 | A non-target cell's neighbours are queued one step further: the queue grows by exactly the `Appended` successors, in Direction.values() order. The invariant is kept. |
| Searching.Searcher.EnqueueNeighbours | core/src/main/java/com/buaisociety/pacman/util/Searcher.java:84-101 | Every direction of Direction.values() is covered: its neighbour is visited, queued, or not enterable. The queue grows by exactly the successors that `Appended` lists, in Direction.values() order. Each new node is one step further and carries a real walk that starts with its recorded first move. |
| Searching.Searcher.ConsiderNeighbour | core/src/main/java/com/buaisociety/pacman/util/Searcher.java:85-99 | When the wrapped neighbour is unvisited and passable or a target, the queue grows by exactly one node: that cell, one step further, inheriting the first move or taking this direction when leaving the start. Otherwise the queue is unchanged. |
| Bfs.Conclude | core/src/main/java/com/buaisociety/pacman/util/Searcher.java:48-104 | With the queue drained, the bits mean what the search promises, in both directions of the iff. |
| Bfs.Reached | core/src/main/java/com/buaisociety/pacman/util/Searcher.java:48-102 | With the queue drained, every cell on a walk the search can follow was visited no later than its position on the walk. |
| Bfs.Extend | core/src/main/java/com/buaisociety/pacman/util/Searcher.java:92-98 | A walk extended by an enterable neighbour of a non-target cell is a walk. It keeps its first move, or takes the new move when it was empty. |
| Bfs.AppendedGrow | core/src/main/java/com/buaisociety/pacman/util/Searcher.java:84-101 | Considering the next direction of the loop extends the queue by exactly the node `Appended` adds for it. |
| Bfs.FlaggedTarget | core/src/main/java/com/buaisociety/pacman/util/Searcher.java:64-79 | After recording a target, every visited target at the closest distance still has the slot of its walk's first move set: a reset keeps only the new target, whose slot it sets. |
| Bfs.FlaggedExpand | core/src/main/java/com/buaisociety/pacman/util/Searcher.java:83-101 | Visiting a cell that is not a target leaves every visited target's slot as it was. |
| Bfs.ConcludeFlags | core/src/main/java/com/buaisociety/pacman/util/Searcher.java:48-104 | With the queue drained, every target that a shortest walk reaches is flagged by a set bit of a shortest walk to it. |
| Bfs.NearestFlagged | core/src/main/java/com/buaisociety/pacman/util/Searcher.java:64-79 | The end of a shortest target walk was visited at the closest distance, so the slot of its recorded walk's first move is set, and that walk is itself a shortest walk. The end has a recorded walk of at least one move. |
| Bfs.BackedGrow | core/src/main/java/com/buaisociety/pacman/util/Searcher.java:60 | Marking a new cell visited, with its walk, keeps every set slot backed by the recorded walk of a visited cell. |
| Bfs.BackedSet | core/src/main/java/com/buaisociety/pacman/util/Searcher.java:69-79 | Setting the slot of a visited node that moved at least once, with that node's recorded walk, keeps every set slot backed. |
| Bfs.ConcludeFirstMoves | core/src/main/java/com/buaisociety/pacman/util/Searcher.java:48-104 | With the queue drained, the set slots are exactly the slots of one first move per nearest target: the first moves of the walks recorded for the visited targets at the closest distance. |
| Bfs.RecordedNearest | core/src/main/java/com/buaisociety/pacman/util/Searcher.java:63-79 | A visited target at the closest distance is reached by its recorded walk, and that walk is a shortest target walk. |
| Bfs.FirstMovesExact | core/src/main/java/com/buaisociety/pacman/util/Searcher.java:63-79 | The cells that a choice of first moves names are exactly the targets that shortest walks of at least one move reach. |
| Bfs.SingleTargetOneBit | core/src/main/java/com/buaisociety/pacman/util/Searcher.java:63-79 | When only one target is nearest, exactly one slot is set. |
| Bfs.InvTarget | core/src/main/java/com/buaisociety/pacman/util/Searcher.java:64-79 | Recording a target keeps the result invariant: a reset on a strictly closer target, and a bit for a first move at the closest distance. |
| World.NeighbourByRemainder | core/src/main/java/com/buaisociety/pacman/util/Searcher.java:85-86 | The remainder formula (x + dx + width) % width is the one-step wrapped neighbour. Java's and Dafny's remainders agree on this non-negative operand. |
| World.NeighbourCell | core/src/main/java/com/buaisociety/pacman/util/Searcher.java:85-86 | Computes the neighbour with the remainder formula. The result is the wrapped neighbour and lies on the grid. |
| Scan.Ghosts | core/src/main/java/com/buaisociety/pacman/entity/behavior/NeatPacmanBehavior.java:221-223 | Keeps exactly the ghosts of the entity list, all of them ghosts. |
| Scan.GhostsKeepOrder | core/src/main/java/com/buaisociety/pacman/entity/behavior/NeatPacmanBehavior.java:221-223 | Filtering keeps the list order: a ghost stands on a cell among the filtered ghosts exactly when one does in the entity list, and the first one found is the first ghost entity on that cell. |
| Scan.ScanDirection | core/src/main/java/com/buaisociety/pacman/entity/behavior/NeatPacmanBehavior.java:225-253 | The scan loop of one direction computes `Ray`, starting from the tile next to Pac-Man and bounded by the number of tiles of the grid. TournamentBehavior.java:136-164 is the same code. |
| Scan.FirstStopDecides | core/src/main/java/com/buaisociety/pacman/entity/behavior/NeatPacmanBehavior.java:234-252 | Only the first tile that stops the walk decides the pair. A wall gives (true, false). The first ghost in list order on that tile gives (true, true) if it is frightened and (false, false) if not. Whatever lies beyond is ignored. |
| Scan.RayNeverBlockedAndFrightened | core/src/main/java/com/buaisociety/pacman/entity/behavior/NeatPacmanBehavior.java:234-252 | A scan never reports (pathClear false, frightenedGhostAhead true). |
| Scan.GhostPairsNeverBlockedAndFrightened | core/src/main/java/com/buaisociety/pacman/entity/behavior/NeatPacmanBehavior.java:225-257 | None of the four ghost pairs reads (false, true). |
| Scan.UnboundedScanNeverStops | core/src/main/java/com/buaisociety/pacman/entity/behavior/NeatPacmanBehavior.java:234-252 | The scan as written, with no step bound: on a grid that is all walkable and holds no ghost, it is still walking after any number of tiles. |
| Scan.SourceRayWalking | core/src/main/java/com/buaisociety/pacman/entity/behavior/NeatPacmanBehavior.java:234-252 | The unbounded scan is still walking after n tiles exactly when the first n tiles are walkable and free of ghosts. |
| Scan.RayBoundsSource | core/src/main/java/com/buaisociety/pacman/entity/behavior/NeatPacmanBehavior.java:234-252 | Given the same number of tiles, the bounded scan answers whatever the unbounded scan answers. Where the unbounded scan is still walking, the bounded scan gives (true, false). |
| Scan.BoundLosesNothing | core/src/main/java/com/buaisociety/pacman/entity/behavior/NeatPacmanBehavior.java:234 | If the unbounded scan is still walking after W·H tiles, it never stops. The bound therefore changes the answer only where the source does not terminate. |
| Scan.WalkReturns | core/src/main/java/com/buaisociety/pacman/entity/behavior/NeatPacmanBehavior.java:251 | After as many steps as its axis is long, a straight walk on the wrapping grid is back where it started. |
| Sensing.AddGhostInputs | core/src/main/java/com/buaisociety/pacman/entity/behavior/NeatPacmanBehavior.java:218-257 | For UP, LEFT, RIGHT and DOWN in that order, inputs[index + 2m] and inputs[index + 2m + 1] hold the m-th direction's (pathClear, frightenedGhostAhead). Nothing else in the array changes. TournamentBehavior.java:129-168 is the same code. |
| Sensing.PutBits | core/src/main/java/com/buaisociety/pacman/entity/behavior/NeatPacmanBehavior.java:116-119 | Four `inputs[index++]` writes store 1 or 0 for each bit, advance the index by four, and change nothing else. |
| Sensing.PutPair | core/src/main/java/com/buaisociety/pacman/entity/behavior/NeatPacmanBehavior.java:255-256 | The two pair writes store 1 or 0 for each flag, advance the index by two, and change nothing else. |
| Sensing.FillInputs | core/src/main/java/com/buaisociety/pacman/entity/behavior/NeatPacmanBehavior.java:113-134 | The array written in order with a running index is exactly the 24-entry layout `Features`. TournamentBehavior.java:69-93 is the same code. |
| Sensing.LayoutIsFeatures | core/src/main/java/com/buaisociety/pacman/entity/behavior/NeatPacmanBehavior.java:113-134 | Twenty-four values laid out block by block are the input vector. |
| Sensing.Features | core/src/main/java/com/buaisociety/pacman/entity/behavior/NeatPacmanBehavior.java:116-134 | Every input is 0 or 1. Slots 0-3 are canMove, 4-7 the pellet search, 8-11 the power-pellet search, 12-15 the fruit search, and 16 + 2k and 17 + 2k the k-th ghost pair. |
| Sensing.Legal | core/src/main/java/com/buaisociety/pacman/entity/behavior/NeatPacmanBehavior.java:100-109 | Slot i is true exactly when Pac-Man can move in the i-th relative direction (forward, left, right, behind). |
| Sensing.TileContainsFruit | core/src/main/java/com/buaisociety/pacman/entity/behavior/NeatPacmanBehavior.java:207-215 | Answers true exactly when some fruit entity stands on the tile. TournamentBehavior.java:171-179 is the same code. |
| Sensing.Search | core/src/main/java/com/buaisociety/pacman/entity/behavior/NeatPacmanBehavior.java:72-94 | One search from Pac-Man's tile and facing answers as the searcher promises, for a pellet-or-power-pellet, power-pellet or fruit target. |
| Sensing.BuildInputs | core/src/main/java/com/buaisociety/pacman/entity/behavior/TournamentBehavior.java:33-93 | The fresh input array is the layout of Pac-Man's legal moves, the three searches and the ghost pairs (`Sensed`). |
| Sensing.AnswerSlots | core/src/main/java/com/buaisociety/pacman/entity/behavior/NeatPacmanBehavior.java:120-131 | Four inputs that carry a search's bits say what the search promises, including that every nearest target is named by an input that is 1 and that the 1s are exactly one first move per nearest target. |
| Sensing.SensedSearches | core/src/main/java/com/buaisociety/pacman/entity/behavior/NeatPacmanBehavior.java:72-131 | In the assembled inputs, a 1 at slots 4-7, 8-11 or 12-15 names the first move of a nearest walk to a pellet, power pellet or fruit. Every nearest target of that kind is named by a 1 in its block. Each block is all 0 exactly when no such target can be reached. |
| Sensing.SensedMovesAndGhosts | core/src/main/java/com/buaisociety/pacman/entity/behavior/NeatPacmanBehavior.java:106-134 | In the assembled inputs, slots 0-3 are 1 exactly for the legal moves, and no ghost pair reads (0, 1). |
| Sensing.FirstMax | core/src/main/java/com/buaisociety/pacman/entity/behavior/NeatPacmanBehavior.java:144-151 | The first position of a greatest output: no output is greater, and every earlier output is strictly smaller. |
| Sensing.ArgMax | core/src/main/java/com/buaisociety/pacman/entity/behavior/NeatPacmanBehavior.java:144-151 | The arg-max loop returns the first position of a greatest output. TournamentBehavior.java:99-106 is the same code. |
| Sensing.Decide | core/src/main/java/com/buaisociety/pacman/entity/behavior/NeatPacmanBehavior.java:153-169 | Indices 0-3 select forward, left, right and behind, and the chosen direction's slot is the index. Any other index fails with "Unexpected value". |
| Sensing.DecideCoversDirections | core/src/main/java/com/buaisociety/pacman/entity/behavior/TournamentBehavior.java:108-124 | Every direction is selected by exactly one index below four. |
| Sensing.Choose | core/src/main/java/com/buaisociety/pacman/entity/behavior/NeatPacmanBehavior.java:141-169 | A turn is chosen exactly when the outputs are non-empty and their first maximum lies below four. The chosen direction's slot is then a first maximum of the outputs. |
| Sensing.Steer | core/src/main/java/com/buaisociety/pacman/entity/behavior/TournamentBehavior.java:33-126 | The inputs are `Sensed` from Pac-Man's state, and the result is the turn that the network's outputs for them select. |
| Neat.StallStep | core/src/main/java/com/buaisociety/pacman/entity/behavior/NeatPacmanBehavior.java:61-70 | A strict score rise is remembered and restarts the count at 1 after the call. The agent stalls exactly when the score did not rise and the count before the increment exceeds 600. |
| Neat.NeatPacmanBehavior.Remember | core/src/main/java/com/buaisociety/pacman/entity/behavior/NeatPacmanBehavior.java:54-57 | The first call stores the entity and creates a fresh searcher; a later call keeps the stored Pac-Man and searcher. |
| Neat.NeatPacmanBehavior.CountTick | core/src/main/java/com/buaisociety/pacman/entity/behavior/NeatPacmanBehavior.java:61-67 | The guard's fields and verdict after one call are those of `StallStep`. |
| Neat.IdleCallsCount | core/src/main/java/com/buaisociety/pacman/entity/behavior/NeatPacmanBehavior.java:61-70 | While the score does not rise, each call counts one more tick. The call that finds count + i ticks behind it stalls exactly when count + i > 600. |
| Neat.StallAfterRise | core/src/main/java/com/buaisociety/pacman/entity/behavior/NeatPacmanBehavior.java:61-70 | After a rise, the agent survives 600 calls without a further rise and is stopped on the 601st. |
| Neat.Truncate | core/src/main/java/com/buaisociety/pacman/entity/behavior/NeatPacmanBehavior.java:195 | Java's double-to-int cast: the result is within 1 of x, toward zero. |
| Neat.TimeTerms | core/src/main/java/com/buaisociety/pacman/entity/behavior/NeatPacmanBehavior.java:194-199 | The two truncated compound assignments are a penalty of 0.1 per tick past 1000 and a reward of 0.5 per tick. Together they stay within 2 points of the exact sum. |
| Neat.EarlyTicksReward | core/src/main/java/com/buaisociety/pacman/entity/behavior/NeatPacmanBehavior.java:194-199 | Up to 1000 ticks there is no penalty. When score + ticks·0.5 is not negative the result is score + ticks / 2, the half point dropped; when it is negative the truncation toward zero gives score + (ticks + 1) / 2. |
| Neat.NeatPacmanBehavior.Fitness | core/src/main/java/com/buaisociety/pacman/entity/behavior/NeatPacmanBehavior.java:172-199 | The score added up step by step is the level score and modifier, 50 per pellet, 100 per power pellet, 200 per ghost, 500 for the next level and -100 for dying, followed by the time terms. |
| Neat.NeatPacmanBehavior.GetDirection | core/src/main/java/com/buaisociety/pacman/entity/behavior/NeatPacmanBehavior.java:53-204 | See below the table. |
| Neat.NeatPacmanBehavior.Respond | core/src/main/java/com/buaisociety/pacman/entity/behavior/NeatPacmanBehavior.java:72-202 | Steers from the sensed inputs. On success it reports the fitness through setScore. On failure the client's score is unchanged. |
| Tournament.TournamentBehavior.GetDirection | core/src/main/java/com/buaisociety/pacman/entity/behavior/TournamentBehavior.java:26-127 | The first call remembers the entity and creates a searcher, and later calls keep both. The result is the turn that the network selects for the sensed inputs, or a failure. |

`Neat.NeatPacmanBehavior.GetDirection` states:

- The first call remembers the entity and creates a searcher; later calls
  keep both.
- The guard's fields follow `StallStep`.
- A stalled call kills Pac-Man, returns UP and reports no score. Pac-Man's
  position, facing, legal moves, counters, level flag and ticks alive stay
  as they were.
- Any other call leaves Pac-Man unchanged and returns the turn that the
  network selects for the sensed inputs. When that turn succeeds, the
  client's score is the fitness; when it fails, the score is unchanged.

## Left out

- The neural network is a function from `seq<real>` to `seq<real>`. Float rounding, NaN and the asynchronous `join` are not modelled, and output comparisons are exact comparisons of reals.
- Inputs are reals 1.0 and 0.0 rather than 32-bit floats.
- Neat.TimeTerms: computed in exact real arithmetic. The double rounding of `(ticks - 1000) * 0.1` and `ticks * 0.5` could move a truncation by one point. The saturation of Java's double-to-int cast at the int bounds is not modelled either.
- Integers are unbounded: 32-bit wrap-around of the score, the counters and `numberUpdatesSinceLastScore++` is not modelled.
- Neat.NeatPacmanBehavior.GetDirection: requires Pac-Man's tile to lie on the grid, because `Maze.getTile` off the grid is not part of this model.
- Tournament.TournamentBehavior.GetDirection: requires Pac-Man's tile to lie on the grid, for the same reason.
- Searching.Searcher.GetDirectionsToClosestTarget: each nearest target sets exactly one first move, but when several first moves start shortest walks to the same target, the contract does not say which one. The source picks the one whose node reaches that cell first in queue order, which depends on Direction.values() order. The per-node ordering is stated by `Searching.Searcher.EnqueueNeighbours`, not carried up to the top-level contract.
- Every search and every behaviour that searches requires a maze with at least one row whose rows are all as wide as the first (`Maze.Valid()`, which is `Rectangular(tiles)`). The source assumes this shape and never checks it.
- Scan.ScanDirection: the scan stops after as many tiles as the grid has, which the source does not do. `Scan.BoundLosesNothing` shows that this changes the answer only where the source would loop for ever (see Findings).
- Maze.java, Tile.java, TileState.java, Entity.java, GhostEntity.java, FruitEntity.java, PacmanEntity.java and Direction.java are not part of this model. The stand-ins assume:
  - the Direction declaration order is UP, DOWN, LEFT, RIGHT, with UP = +y;
  - the turns are counter-clockwise for `left()` (UP.left() is LEFT, LEFT.left() is DOWN, DOWN.left() is RIGHT, RIGHT.left() is UP), `right()` is the opposite turn and `behind()` the reverse direction, which `Relative` and `SlotOf` rely on;
  - `getAdjacentTile` wraps like the searcher's remainder arithmetic and never returns null;
  - `isPassable` and `isWalkable` are fixed functions of a tile's state.
- `canMove` is the set of directions Pac-Man can move in this tick, a field of the Pac-Man stand-in. How the game computes it is not part of this model.
- The `Integer.MAX_VALUE` sentinel for the closest distance is `None`.
- Thrown exceptions (`IllegalStateException`, an out-of-bounds read of `outputs[0]`) become a `Failure` result.
- The searcher's Java arrays are sequences, except the `visited` grid, which stays a two-dimensional array.
- `setScore` is a write to the client's `score` field. The NEAT client's own logic is not part of this model.
- Rendering (`render`) and the constructors' wiring to the game loop are not modelled.
- The casts `(PacmanEntity) entity` and `(GhostEntity) entity` are assumed to succeed: the entity is Pac-Man, and every entity of type GHOST is a ghost.

## Findings

| source | as written | input that shows it | evidently intended | confidence | as-written member | corrected member |
|---|---|---|---|---|---|---|
| core/src/main/java/com/buaisociety/pacman/entity/behavior/NeatPacmanBehavior.java:234-252 | The ghost scan walks on while the next tile is walkable, with no limit on the number of steps. | A maze row or column through Pac-Man that is walkable along its whole length and holds no ghost, with `getAdjacentTile` wrapping at the edges: the scan circles the grid for ever. | Stop after one lap of the grid and report a clear path with no frightened ghost, as for a scan that meets no ghost. | medium, not executed (it depends on `getAdjacentTile` wrapping, and Maze.java is not part of this model) | Scan.UnboundedScanNeverStops | Scan.ScanDirection |
| core/src/main/java/com/buaisociety/pacman/entity/behavior/TournamentBehavior.java:145-163 | The same unbounded scan in the tournament behaviour. | The same input as above. | The same as above. | medium, not executed | Scan.UnboundedScanNeverStops | Scan.ScanDirection |
