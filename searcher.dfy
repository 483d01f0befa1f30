/**
 * Searcher.getDirectionsToClosestTarget: a breadth-first search over the
 * wrapping maze that reports which first moves out of the start lead to a
 * closest target.
 */
module Searching {
  import opened Wrappers
  import opened Directions
  import opened World
  import opened Bfs

  /** The visited array marks exactly the cells of D. */
  ghost predicate Marks(visited: array2<bool>, D: map<Cell, nat>)
    reads visited
  {
    forall j, i :: 0 <= j < visited.Length0 && 0 <= i < visited.Length1 ==> (visited[j, i] <==> (i, j) in D)
  }

  /** Marks cell (x, y) visited, recording it at distance d. */
  method MarkVisited(visited: array2<bool>, x: int, y: int, ghost D: map<Cell, nat>, ghost d: nat)
    returns (ghost D': map<Cell, nat>)
    requires 0 <= y < visited.Length0 && 0 <= x < visited.Length1 && Marks(visited, D)
    modifies visited
    ensures D' == D[(x, y) := d] && Marks(visited, D')
  {
    visited[y, x] := true;
    D' := D[(x, y) := d];
  }

  lemma SetGrows<T>(all: set<T>, a: set<T>, b: set<T>)
    requires a < b <= all
    ensures all - b < all - a
  {
    var x :| x in b && x !in a;
    assert x in all - a;
  }

  /** What the drained search state says about the answer. */
  lemma Outcome(P: Space, S: Cell, f: Direction, D: map<Cell, nat>, cur: nat,
                closest: Option<nat>, dirs: seq<bool>, wit: seq<seq<Direction>>, dequeues: nat, resets: nat)
    requires Rectangular(P.tiles) && D.Keys <= Cells(|P.tiles[0]|, |P.tiles|)
    requires Inv(P, S, f, D, [], [], cur, closest, dirs, wit)
    requires dequeues <= 1 + 4 * |D| && resets == if closest.Some? then 1 else 0
    ensures |dirs| == 4
    ensures forall i :: 0 <= i < 4 && dirs[i] ==>
              exists moves :: Nearest(P, S, moves) && |moves| > 0 && moves[0] == Relative(f, i)
    ensures (exists i :: 0 <= i < 4 && dirs[i]) <==> (exists moves :: TargetWalk(P, S, moves) && |moves| > 0)
    ensures !P.In(S) || P.Matches(S) ==> dirs == NoBits
    ensures dequeues <= 1 + 4 * (|P.tiles[0]| * |P.tiles|)
    ensures resets <= 1
  {
    Conclude(P, S, f, D, cur, closest, dirs, wit);
    forall i | 0 <= i < 4 && dirs[i]
      ensures exists moves :: Nearest(P, S, moves) && |moves| > 0 && moves[0] == Relative(f, i)
    {
      assert Nearest(P, S, wit[i]);
    }
    CellsSize(|P.tiles[0]|, |P.tiles|);
    SubsetSize(D.Keys, Cells(|P.tiles[0]|, |P.tiles|));
    if exists i :: 0 <= i < 4 && dirs[i] {
      var moves :| TargetWalk(P, S, moves) && |moves| > 0;
      FirstMoveLeavesStart(P, S, moves);
    }
  }

  class Searcher {
    const maze: Maze

    constructor (maze: Maze)
      ensures this.maze == maze
    {
      this.maze := maze;
    }

    /** The search space a call with `target` explores: the maze as it is now. */
    ghost function SpaceFor(target: Tile -> bool): Space
      reads maze
    {
      Space(maze.tiles, maze.isPassable, target)
    }

    /**
     * Returns [forward, left, right, behind]: a bit is set only for a first
     * move that starts a shortest walk to a target, every target at the
     * shortest distance gets the bit of one first move of a shortest walk
     * to it and no other target sets a bit, and some bit is set exactly when
     * a target can be reached by at least one move. A cell is
     * marked visited when it is dequeued, so a cell may be queued several
     * times; targets are recorded but not expanded; a neighbour is queued
     * only if it is passable or a target. The ghost outputs count the
     * dequeues and the resets of the result.
     */
    method GetDirectionsToClosestTarget(startX: int, startY: int, startDirection: Direction, targetPredicate: Tile -> bool)
      returns (directions: seq<bool>, ghost dequeues: nat, ghost resets: nat)
      requires maze.Valid()
      ensures |directions| == 4
      ensures forall i :: 0 <= i < 4 && directions[i] ==>
                exists moves :: Nearest(SpaceFor(targetPredicate), (startX, startY), moves) && |moves| > 0 &&
                                moves[0] == Relative(startDirection, i)
      ensures (exists i :: 0 <= i < 4 && directions[i]) <==>
              (exists moves :: TargetWalk(SpaceFor(targetPredicate), (startX, startY), moves) && |moves| > 0)
      ensures FlagsEveryTarget(SpaceFor(targetPredicate), (startX, startY), startDirection, directions)
      ensures BitsAreFirstMoves(SpaceFor(targetPredicate), (startX, startY), startDirection, directions)
      ensures !InGrid(maze.tiles, (startX, startY)) || SpaceFor(targetPredicate).Matches((startX, startY)) ==>
                directions == NoBits
      ensures dequeues <= 1 + 4 * (|maze.tiles[0]| * |maze.tiles|)
      ensures resets <= 1
    {
      var tiles := maze.tiles;
      var height := |tiles|;
      var width := |tiles[0]|;
      ghost var P := SpaceFor(targetPredicate);
      ghost var S := (startX, startY);
      ghost var f := startDirection;

      var visited := new bool[height, width]((_, _) => false);
      var queue := [Node(startX, startY, None, 0)];
      var directionsToTarget := NoBits;
      var closestDistance: Option<nat> := None;

      ghost var D: map<Cell, nat> := map[];
      ghost var walks: seq<seq<Direction>> := [[]];
      ghost var cur: nat := 0;
      ghost var wit: seq<seq<Direction>> := [[], [], [], []];
      ghost var W: map<Cell, seq<Direction>> := map[];
      ghost var grid := Cells(width, height);
      dequeues, resets := 0, 0;
      InvInit(P, S, f);

      while queue != []
        invariant visited.Length0 == height && visited.Length1 == width
        invariant Marks(visited, D) && D.Keys <= grid
        invariant Inv(P, S, f, D, queue, walks, cur, closestDistance, directionsToTarget, wit)
        invariant Walked(P, S, D, W) && Flagged(P, f, D, W, closestDistance, directionsToTarget)
        invariant Backed(P, S, D, W, directionsToTarget, wit)
        invariant resets == if closestDistance.Some? then 1 else 0
        invariant dequeues + |queue| <= 1 + 4 * |D|
        decreases grid - D.Keys, |queue|
      {
        ghost var D0 := D;
        queue, closestDistance, directionsToTarget, D, W, walks, cur, wit, resets :=
          Step(visited, tiles, targetPredicate, startDirection, queue, closestDistance, directionsToTarget,
               P, S, D, W, walks, cur, wit, resets);
        dequeues := dequeues + 1;
        if D != D0 {
          SetGrows(grid, D0.Keys, D.Keys);
        }
      }

      Outcome(P, S, f, D, cur, closestDistance, directionsToTarget, wit, dequeues, resets);
      ConcludeFlags(P, S, f, D, W, cur, closestDistance, directionsToTarget, wit);
      assert BitsAreFirstMoves(P, S, f, directionsToTarget) by {
        ConcludeFirstMoves(P, S, f, D, W, cur, closestDistance, directionsToTarget, wit);
      }
      directions := directionsToTarget;
    }

    /**
     * One turn of the search loop: dequeue the front node; skip it when it
     * lies outside the grid or was visited already, otherwise visit it.
     */
    method Step(visited: array2<bool>, tiles: seq<seq<TileState>>, targetPredicate: Tile -> bool,
                startDirection: Direction, queue: seq<Node>, closest: Option<nat>, dirs: seq<bool>,
                ghost P: Space, ghost S: Cell, ghost D: map<Cell, nat>, ghost W: map<Cell, seq<Direction>>,
                ghost walks: seq<seq<Direction>>, ghost cur: nat, ghost wit: seq<seq<Direction>>, ghost resets: nat)
      returns (queue': seq<Node>, closest': Option<nat>, dirs': seq<bool>, ghost D': map<Cell, nat>,
               ghost W': map<Cell, seq<Direction>>, ghost walks': seq<seq<Direction>>, ghost cur': nat,
               ghost wit': seq<seq<Direction>>, ghost resets': nat)
      requires P == Space(tiles, maze.isPassable, targetPredicate) && Rectangular(tiles)
      requires visited.Length0 == |tiles| && visited.Length1 == |tiles[0]|
      requires Marks(visited, D) && D.Keys <= Cells(|tiles[0]|, |tiles|)
      requires Inv(P, S, startDirection, D, queue, walks, cur, closest, dirs, wit) && queue != []
      requires Walked(P, S, D, W) && Flagged(P, startDirection, D, W, closest, dirs)
      requires Backed(P, S, D, W, dirs, wit)
      requires resets == if closest.Some? then 1 else 0
      modifies visited
      ensures !P.In((queue[0].x, queue[0].y)) || (queue[0].x, queue[0].y) in D ==>
                D' == D && W' == W && queue' == queue[1..] && closest' == closest && dirs' == dirs
      ensures P.In((queue[0].x, queue[0].y)) && (queue[0].x, queue[0].y) !in D ==>
                D' == D[(queue[0].x, queue[0].y) := queue[0].distance] && W' == W[(queue[0].x, queue[0].y) := walks[0]]
      ensures P.In((queue[0].x, queue[0].y)) && (queue[0].x, queue[0].y) !in D ==>
                VisitEffect(P, startDirection, D', queue[0], queue[1..], closest, dirs, queue', closest', dirs')
      ensures Marks(visited, D') && D'.Keys <= Cells(|tiles[0]|, |tiles|)
      ensures Inv(P, S, startDirection, D', queue', walks', cur', closest', dirs', wit')
      ensures Walked(P, S, D', W') && Flagged(P, startDirection, D', W', closest', dirs')
      ensures Backed(P, S, D', W', dirs', wit')
      ensures resets' == if closest'.Some? then 1 else 0
      ensures (D' == D && |queue'| < |queue|) || (D.Keys < D'.Keys && |D'| == |D| + 1 && |queue'| <= |queue| + 3)
    {
      var node := queue[0];
      var x, y := node.x, node.y;
      if x < 0 || x >= |tiles[0]| || y < 0 || y >= |tiles| || visited[y, x] {
        InvSkip(P, S, startDirection, D, queue, walks, cur, closest, dirs, wit);
        queue', closest', dirs', D', W', walks', cur', wit', resets' :=
          queue[1..], closest, dirs, D, W, walks[1..], node.distance, wit, resets;
        return;
      }
      queue', closest', dirs', D', W', walks', wit', resets' :=
        Visit(visited, tiles, targetPredicate, startDirection, node, queue[1..], closest, dirs,
              P, S, D, W, queue, walks, cur, wit, resets);
      cur' := node.distance;
      InCells(|tiles[0]|, |tiles|, (x, y));
    }

    /**
     * One dequeued cell that is in the grid and not yet visited: mark it,
     * then either record it as a target or enqueue its neighbours.
     */
    method Visit(visited: array2<bool>, tiles: seq<seq<TileState>>, targetPredicate: Tile -> bool, startDirection: Direction, node: Node,
                 queue: seq<Node>, closest: Option<nat>, dirs: seq<bool>,
                 ghost P: Space, ghost S: Cell, ghost D: map<Cell, nat>, ghost W: map<Cell, seq<Direction>>,
                 ghost q: seq<Node>, ghost walks: seq<seq<Direction>>, ghost cur: nat, ghost wit: seq<seq<Direction>>,
                 ghost resets: nat)
      returns (queue': seq<Node>, closest': Option<nat>, dirs': seq<bool>,
               ghost D': map<Cell, nat>, ghost W': map<Cell, seq<Direction>>, ghost walks': seq<seq<Direction>>,
               ghost wit': seq<seq<Direction>>, ghost resets': nat)
      requires P == Space(tiles, maze.isPassable, targetPredicate) && Rectangular(tiles)
      requires visited.Length0 == |tiles| && visited.Length1 == |tiles[0]| && Marks(visited, D)
      requires Inv(P, S, startDirection, D, q, walks, cur, closest, dirs, wit)
      requires q != [] && node == q[0] && queue == q[1..]
      requires P.In((node.x, node.y)) && (node.x, node.y) !in D
      requires Walked(P, S, D, W) && Flagged(P, startDirection, D, W, closest, dirs)
      requires Backed(P, S, D, W, dirs, wit)
      requires resets == if closest.Some? then 1 else 0
      modifies visited
      ensures D' == D[(node.x, node.y) := node.distance] && Marks(visited, D')
      ensures W' == W[(node.x, node.y) := walks[0]]
      ensures VisitEffect(P, startDirection, D', node, queue, closest, dirs, queue', closest', dirs')
      ensures Inv(P, S, startDirection, D', queue', walks', node.distance, closest', dirs', wit')
      ensures Walked(P, S, D', W') && Flagged(P, startDirection, D', W', closest', dirs')
      ensures Backed(P, S, D', W', dirs', wit')
      ensures resets' == if closest'.Some? then 1 else 0
      ensures |queue'| <= |queue| + 4
    {
      var x, y := node.x, node.y;
      D' := MarkVisited(visited, x, y, D, node.distance);
      W' := W[(x, y) := walks[0]];
      assert Witness(P, S, walks[0], node);
      WalkedVisit(P, S, D, W, node, walks[0]);
      var tile := Tile((x, y), tiles[y][x]);
      if targetPredicate(tile) {
        closest', dirs', wit', resets' := RecordTarget(startDirection, node, closest, dirs, P, S, D, W, q, walks, cur, wit, resets);
        queue', walks' := queue, walks[1..];
      } else {
        queue', walks' := Expand(visited, tiles, targetPredicate, startDirection, node, queue, closest, dirs,
                                 P, S, D, q, walks, cur, wit, D');
        closest', dirs', wit', resets' := closest, dirs, wit, resets;
        FlaggedExpand(P, startDirection, D, W, closest, dirs, (x, y), node.distance, walks[0]);
        BackedGrow(P, S, D, W, (x, y), node.distance, walks[0], dirs, wit);
      }
    }

    /**
     * A target reached at distance d: a strictly closer target resets the
     * result; a target at the closest distance sets the bit of its first
     * move relative to the start direction.
     */
    method RecordTarget(startDirection: Direction, node: Node, closest: Option<nat>, dirs: seq<bool>,
                        ghost P: Space, ghost S: Cell, ghost D: map<Cell, nat>, ghost W: map<Cell, seq<Direction>>,
                        ghost q: seq<Node>, ghost walks: seq<seq<Direction>>, ghost cur: nat, ghost wit: seq<seq<Direction>>,
                        ghost resets: nat)
      returns (closest': Option<nat>, dirs': seq<bool>, ghost wit': seq<seq<Direction>>, ghost resets': nat)
      requires Inv(P, S, startDirection, D, q, walks, cur, closest, dirs, wit) && q != [] && node == q[0]
      requires P.In((node.x, node.y)) && (node.x, node.y) !in D && P.Matches((node.x, node.y))
      requires Flagged(P, startDirection, D, W, closest, dirs) && Backed(P, S, D, W, dirs, wit)
      requires resets == if closest.Some? then 1 else 0
      ensures closest' == if closest.None? || node.distance < closest.value then Some(node.distance) else closest
      ensures closest.None? || node.distance < closest.value ==>
                dirs' == if node.initialDirection.Some? then NoBits[SlotOf(startDirection, node.initialDirection.value) := true]
                         else NoBits
      ensures !(closest.None? || node.distance < closest.value) ==>
                dirs' == if closest == Some(node.distance) && node.initialDirection.Some?
                         then dirs[SlotOf(startDirection, node.initialDirection.value) := true] else dirs
      ensures Inv(P, S, startDirection, D[(node.x, node.y) := node.distance], q[1..], walks[1..], node.distance,
                  closest', dirs', wit')
      ensures resets' == if closest'.Some? then 1 else 0
      ensures Flagged(P, startDirection, D[(node.x, node.y) := node.distance], W[(node.x, node.y) := walks[0]], closest', dirs')
      ensures Backed(P, S, D[(node.x, node.y) := node.distance], W[(node.x, node.y) := walks[0]], dirs', wit')
    {
      ghost var moves := walks[0];
      ghost var D', W' := D[(node.x, node.y) := node.distance], W[(node.x, node.y) := walks[0]];
      InvVisit(P, S, startDirection, D, q, walks, cur, closest, dirs, wit, D');
      BackedGrow(P, S, D, W, (node.x, node.y), node.distance, moves, dirs, wit);
      assert Witness(P, S, moves, node);
      closest', dirs', wit', resets' := closest, dirs, wit, resets;
      if closest.None? || node.distance < closest.value {
        closest' := Some(node.distance);
        dirs' := NoBits;
        resets' := resets + 1;
      }
      assert Backed(P, S, D', W', dirs', wit');
      if closest' == Some(node.distance) && node.initialDirection.Some? {
        var first := node.initialDirection.value;
        if first == startDirection {
          BackedSet(P, S, D', W', node, moves, dirs', wit', 0);
          dirs' := dirs'[0 := true];
          wit' := wit'[0 := moves];
        } else if first == startDirection.Left() {
          BackedSet(P, S, D', W', node, moves, dirs', wit', 1);
          dirs' := dirs'[1 := true];
          wit' := wit'[1 := moves];
        } else if first == startDirection.Right() {
          BackedSet(P, S, D', W', node, moves, dirs', wit', 2);
          dirs' := dirs'[2 := true];
          wit' := wit'[2 := moves];
        } else {
          // The source tests first == startDirection.behind() here; it always holds.
          BackedSet(P, S, D', W', node, moves, dirs', wit', 3);
          dirs' := dirs'[3 := true];
          wit' := wit'[3 := moves];
        }
      }
      InvTarget(P, S, startDirection, D, cur, node, moves, closest, dirs, wit, closest', dirs', wit');
      FlaggedTarget(P, S, startDirection, D, W, cur, node, moves, closest, dirs, wit, closest', dirs');
    }

    /** A dequeued cell that is not a target: its neighbours are enqueued. */
    method Expand(visited: array2<bool>, tiles: seq<seq<TileState>>, targetPredicate: Tile -> bool,
                  startDirection: Direction, node: Node, queue: seq<Node>, closest: Option<nat>, dirs: seq<bool>,
                  ghost P: Space, ghost S: Cell, ghost D: map<Cell, nat>, ghost q: seq<Node>,
                  ghost walks: seq<seq<Direction>>, ghost cur: nat, ghost wit: seq<seq<Direction>>,
                  ghost D': map<Cell, nat>)
      returns (queue': seq<Node>, ghost walks': seq<seq<Direction>>)
      requires P == Space(tiles, maze.isPassable, targetPredicate) && Rectangular(tiles)
      requires Inv(P, S, startDirection, D, q, walks, cur, closest, dirs, wit)
      requires q != [] && node == q[0] && queue == q[1..]
      requires P.In((node.x, node.y)) && (node.x, node.y) !in D && !P.Matches((node.x, node.y))
      requires D' == D[(node.x, node.y) := node.distance]
      requires visited.Length0 == |tiles| && visited.Length1 == |tiles[0]| && Marks(visited, D')
      ensures queue' == queue + Appended(P, D', node, Values)
      ensures Inv(P, S, startDirection, D', queue', walks', node.distance, closest, dirs, wit)
      ensures |queue'| <= |queue| + 4
    {
      assert forall c :: c in D' ==> D'[c] <= node.distance;
      queue', walks' := EnqueueNeighbours(visited, tiles, targetPredicate, node, queue, P, S, D', walks[0], walks[1..]);
      InvExpand(P, S, startDirection, D, q, walks, cur, closest, dirs, wit, D', queue', walks');
    }

    /**
     * The neighbour loop of the search: for every direction, in
     * Direction.values() order, the wrapped neighbour of `node` is appended
     * to the queue when it is not visited and is passable or a target; the
     * appended node inherits the first move, or takes this direction when
     * `node` is the start.
     */
    method EnqueueNeighbours(visited: array2<bool>, tiles: seq<seq<TileState>>, targetPredicate: Tile -> bool, node: Node, queue: seq<Node>,
                             ghost P: Space, ghost S: Cell, ghost D: map<Cell, nat>, ghost moves: seq<Direction>,
                             ghost walks: seq<seq<Direction>>)
      returns (queue': seq<Node>, ghost walks': seq<seq<Direction>>)
      requires P == Space(tiles, maze.isPassable, targetPredicate)
      requires InGrid(tiles, (node.x, node.y)) && (node.x, node.y) in D && D[(node.x, node.y)] == node.distance
      requires visited.Length0 == |tiles| && visited.Length1 == |tiles[0]| && Marks(visited, D)
      requires !P.Matches((node.x, node.y))
      requires Witness(P, S, moves, node)
      requires forall c :: c in D ==> D[c] <= node.distance
      requires |walks| == |queue|
      ensures |queue| <= |queue'| <= |queue| + 4 && queue'[..|queue|] == queue
      ensures |walks'| == |queue'| && walks'[..|queue|] == walks
      ensures forall j :: |queue| <= j < |queue'| ==>
                queue'[j].distance == node.distance + 1 && Witness(P, S, walks'[j], queue'[j])
      ensures queue' == queue + Appended(P, D, node, Values)
      ensures forall d :: Covered(P, D, queue', (node.x, node.y), d)
    {
      var x, y := node.x, node.y;
      queue', walks' := queue, walks;
      var k := 0;
      while k < |Values|
        invariant 0 <= k <= |Values|
        invariant queue' == queue + Appended(P, D, node, Values[..k])
        invariant |queue| <= |queue'| <= |queue| + k && queue'[..|queue|] == queue
        invariant |walks'| == |queue'| && walks'[..|queue|] == walks
        invariant forall j :: |queue| <= j < |queue'| ==>
                    queue'[j].distance == node.distance + 1 && Witness(P, S, walks'[j], queue'[j])
        invariant forall j :: 0 <= j < k ==> Covered(P, D, queue', (x, y), Values[j])
      {
        var dir := Values[k];
        var grown: seq<Node>;
        ghost var grownWalks: seq<seq<Direction>>;
        grown, grownWalks := ConsiderNeighbour(visited, tiles, targetPredicate, node, dir, queue', P, S, D, moves, walks');
        Grow(P, S, D, queue', walks', grown, grownWalks, |queue|, (x, y), k);
        AppendedGrow(P, D, node, Values, k, queue, queue', grown);
        queue', walks' := grown, grownWalks;
        k := k + 1;
      }
      assert Values[..k] == Values;
      CoveredAll(P, D, queue', (x, y));
    }

    /**
     * One turn of the neighbour loop: the wrapped neighbour of `node` in
     * direction `dir` is appended when it is not visited and is passable or
     * a target.
     */
    method ConsiderNeighbour(visited: array2<bool>, tiles: seq<seq<TileState>>, targetPredicate: Tile -> bool,
                             node: Node, dir: Direction, queue: seq<Node>,
                             ghost P: Space, ghost S: Cell, ghost D: map<Cell, nat>, ghost moves: seq<Direction>,
                             ghost walks: seq<seq<Direction>>)
      returns (queue': seq<Node>, ghost walks': seq<seq<Direction>>)
      requires P == Space(tiles, maze.isPassable, targetPredicate)
      requires InGrid(tiles, (node.x, node.y)) && (node.x, node.y) in D && D[(node.x, node.y)] == node.distance
      requires visited.Length0 == |tiles| && visited.Length1 == |tiles[0]| && Marks(visited, D)
      requires !P.Matches((node.x, node.y)) && Witness(P, S, moves, node)
      requires forall c :: c in D ==> D[c] <= node.distance
      requires |walks| == |queue|
      ensures |queue| <= |queue'| <= |queue| + 1 && queue'[..|queue|] == queue
      ensures |walks'| == |queue'| && walks'[..|queue|] == walks
      ensures forall j :: |queue| <= j < |queue'| ==>
                queue'[j].distance == node.distance + 1 && Witness(P, S, walks'[j], queue'[j])
      ensures P.Next((node.x, node.y), dir) !in D && P.Enterable(P.Next((node.x, node.y), dir)) ==>
                queue' == queue + [Successor(node, P.Next((node.x, node.y), dir), dir)]
      ensures !(P.Next((node.x, node.y), dir) !in D && P.Enterable(P.Next((node.x, node.y), dir))) ==> queue' == queue
      ensures Covered(P, D, queue', (node.x, node.y), dir)
    {
      var x, y := node.x, node.y;
      var n := NeighbourCell(tiles, (x, y), dir);
      var newX, newY := n.0, n.1;
      queue', walks' := queue, walks;
      if !visited[newY, newX] {
        var neighbourTile := Tile((newX, newY), tiles[newY][newX]);
        if maze.isPassable(neighbourTile.state) || targetPredicate(neighbourTile) {
          var newInitialDirection := node.initialDirection;
          if node.initialDirection.None? {
            newInitialDirection := Some(dir);
          }
          var next := Node(newX, newY, newInitialDirection, node.distance + 1);
          StepWitness(P, S, moves, node, dir);
          assert Witness(P, S, moves + [dir], next);
          queue' := queue + [next];
          walks' := walks + [moves + [dir]];
          assert queue'[|queue|] == next && walks'[|queue|] == moves + [dir];
          assert Queued(queue', n, node.distance + 1);
        } else {
          assert !P.Enterable(n);
        }
      } else {
        assert (newX, newY) in D;
      }
    }
  }
}
