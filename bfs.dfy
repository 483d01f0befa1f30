/**
 * What the multi-target breadth-first search of Searcher.java computes,
 * stated over walks on the wrapping grid, and the invariant its loop keeps.
 */
module Bfs {
  import opened Wrappers
  import opened Directions
  import opened World

  /** One queue entry: a cell, the first move out of the start (None for the start itself), the distance. */
  datatype Node = Node(x: int, y: int, initialDirection: Option<Direction>, distance: nat)

  /** What one search reads: the tiles, TileState.isPassable and the caller's target predicate. */
  datatype Space = Space(tiles: seq<seq<TileState>>, passable: TileState -> bool, target: Tile -> bool)
  {
    predicate In(c: Cell)
    {
      InGrid(tiles, c)
    }

    predicate Matches(c: Cell)
      requires In(c)
    {
      target(Tile(c, tiles[c.1][c.0]))
    }

    /** A neighbour is enqueued only if it is passable or is itself a target. */
    predicate Enterable(c: Cell)
      requires In(c)
    {
      passable(tiles[c.1][c.0]) || Matches(c)
    }

    function Next(c: Cell, d: Direction): (n: Cell)
      requires In(c)
      ensures In(n)
    {
      Neighbour(tiles, c, d)
    }
  }

  /** The cell reached from `s` after the first `i` moves. */
  ghost function At(P: Space, s: Cell, moves: seq<Direction>, i: nat): (c: Cell)
    requires P.In(s) && i <= |moves|
    ensures P.In(c)
    decreases i
  {
    if i == 0 then s else P.Next(At(P, s, moves, i - 1), moves[i - 1])
  }

  ghost function End(P: Space, s: Cell, moves: seq<Direction>): (c: Cell)
    requires P.In(s)
  {
    At(P, s, moves, |moves|)
  }

  /**
   * A walk the search can follow: it starts on the grid, never leaves a
   * target cell (targets are not expanded) and only enters enterable cells.
   */
  ghost predicate ValidWalk(P: Space, s: Cell, moves: seq<Direction>)
  {
    P.In(s) &&
    forall i :: 0 <= i < |moves| ==> !P.Matches(At(P, s, moves, i)) && P.Enterable(P.Next(At(P, s, moves, i), moves[i]))
  }

  ghost predicate TargetWalk(P: Space, s: Cell, moves: seq<Direction>)
  {
    ValidWalk(P, s, moves) && P.Matches(End(P, s, moves))
  }

  /** A walk to a target that no walk to any target is shorter than. */
  ghost predicate Nearest(P: Space, s: Cell, moves: seq<Direction>)
  {
    TargetWalk(P, s, moves) && forall other :: TargetWalk(P, s, other) ==> |moves| <= |other|
  }

  lemma {:induction false} AtPrefix(P: Space, s: Cell, moves: seq<Direction>, d: Direction, i: nat)
    requires P.In(s) && i <= |moves|
    ensures At(P, s, moves + [d], i) == At(P, s, moves, i)
    decreases i
  {
    if i > 0 {
      AtPrefix(P, s, moves, d, i - 1);
      assert (moves + [d])[i - 1] == moves[i - 1];
    }
  }

  /** One more move out of a non-target cell into an enterable cell extends a walk. */
  lemma Extend(P: Space, s: Cell, moves: seq<Direction>, d: Direction)
    requires ValidWalk(P, s, moves) && !P.Matches(End(P, s, moves))
    requires P.Enterable(P.Next(End(P, s, moves), d))
    ensures ValidWalk(P, s, moves + [d])
    ensures End(P, s, moves + [d]) == P.Next(End(P, s, moves), d)
    ensures (moves + [d])[0] == if moves == [] then d else moves[0]
  {
    var ext := moves + [d];
    forall i | 0 <= i <= |moves|
      ensures At(P, s, ext, i) == At(P, s, moves, i)
    {
      AtPrefix(P, s, moves, d, i);
    }
    assert At(P, s, ext, |ext|) == P.Next(At(P, s, ext, |moves|), d);
    forall i | 0 <= i < |ext|
      ensures !P.Matches(At(P, s, ext, i)) && P.Enterable(P.Next(At(P, s, ext, i), ext[i]))
    {
      if i < |moves| {
        assert ext[i] == moves[i];
      }
    }
  }

  /** A walk with a first move starts on the grid, from a cell that is not a target. */
  lemma FirstMoveLeavesStart(P: Space, s: Cell, moves: seq<Direction>)
    requires ValidWalk(P, s, moves) && |moves| > 0
    ensures P.In(s) && !P.Matches(s)
  {
    assert At(P, s, moves, 0) == s;
  }

  // ---------------------------------------------------------------------
  // The loop invariant of the search. D maps each visited cell to the
  // distance it was dequeued at; `cur` is the distance last dequeued.
  // ---------------------------------------------------------------------

  /** A queue entry carries a real walk of its length, starting with its recorded first move. */
  ghost predicate Witness(P: Space, s: Cell, moves: seq<Direction>, n: Node)
  {
    |moves| == n.distance &&
    if n.distance == 0 then n == Node(s.0, s.1, None, 0)
    else ValidWalk(P, s, moves) && End(P, s, moves) == (n.x, n.y) && n.initialDirection == Some(moves[0])
  }

  ghost predicate Queued(q: seq<Node>, c: Cell, dist: nat)
  {
    exists k :: 0 <= k < |q| && q[k].x == c.0 && q[k].y == c.1 && q[k].distance == dist
  }

  /** Breadth-first order: distances sorted and within one of the last dequeued distance. */
  ghost predicate QueueOk(P: Space, s: Cell, q: seq<Node>, walks: seq<seq<Direction>>, cur: nat)
  {
    |walks| == |q| &&
    (forall k :: 0 <= k < |q| ==> Witness(P, s, walks[k], q[k])) &&
    (forall k :: 0 <= k < |q| ==> cur <= q[k].distance <= cur + 1) &&
    (forall j, k :: 0 <= j < k < |q| ==> q[j].distance <= q[k].distance)
  }

  ghost predicate DistOk(P: Space, s: Cell, D: map<Cell, nat>, cur: nat)
  {
    (forall c :: c in D ==> P.In(c) && D[c] <= cur) &&
    (s in D ==> D[s] == 0)
  }

  /** Until the start is dequeued, it is the only entry. */
  ghost predicate StartOk(P: Space, s: Cell, D: map<Cell, nat>, q: seq<Node>)
  {
    P.In(s) && s !in D ==> D == map[] && q == [Node(s.0, s.1, None, 0)]
  }

  /** An enterable neighbour of an expanded cell is visited no later than one step after it, or waits in the queue. */
  ghost predicate Covered(P: Space, D: map<Cell, nat>, q: seq<Node>, c: Cell, d: Direction)
    requires c in D && P.In(c)
  {
    var n := P.Next(c, d);
    P.Enterable(n) ==> (n in D && D[n] <= D[c] + 1) || Queued(q, n, D[c] + 1)
  }

  ghost predicate ClosedOk(P: Space, D: map<Cell, nat>, q: seq<Node>)
  {
    forall c, d {:trigger Covered(P, D, q, c, d)} :: c in D && P.In(c) && !P.Matches(c) ==> Covered(P, D, q, c, d)
  }

  /** Bit i is backed by a walk to a target of the closest distance whose first move is slot i. */
  ghost predicate Bit(P: Space, s: Cell, f: Direction, moves: seq<Direction>, dist: nat, i: nat)
    requires i < 4
  {
    TargetWalk(P, s, moves) && |moves| == dist && dist > 0 && moves[0] == Relative(f, i)
  }

  ghost predicate ResultOk(P: Space, s: Cell, f: Direction, D: map<Cell, nat>, cur: nat,
                           closest: Option<nat>, dirs: seq<bool>, wit: seq<seq<Direction>>)
  {
    |dirs| == 4 && |wit| == 4 &&
    (forall c :: c in D && P.In(c) && P.Matches(c) ==> closest.Some? && closest.value <= D[c]) &&
    (closest.Some? ==> closest.value <= cur) &&
    (closest == Some(0) ==> P.In(s) && P.Matches(s)) &&
    (closest.Some? && closest.value > 0 ==> dirs[0] || dirs[1] || dirs[2] || dirs[3]) &&
    (forall i :: 0 <= i < 4 && dirs[i] ==> closest.Some? && Bit(P, s, f, wit[i], closest.value, i))
  }

  ghost predicate Inv(P: Space, s: Cell, f: Direction, D: map<Cell, nat>, q: seq<Node>, walks: seq<seq<Direction>>,
                      cur: nat, closest: Option<nat>, dirs: seq<bool>, wit: seq<seq<Direction>>)
  {
    QueueOk(P, s, q, walks, cur) && DistOk(P, s, D, cur) && StartOk(P, s, D, q) &&
    ClosedOk(P, D, q) && ResultOk(P, s, f, D, cur, closest, dirs, wit)
  }

  const NoBits: seq<bool> := [false, false, false, false]

  lemma InvInit(P: Space, s: Cell, f: Direction)
    ensures Inv(P, s, f, map[], [Node(s.0, s.1, None, 0)], [[]], 0, None, NoBits, [[], [], [], []])
    ensures Walked(P, s, map[], map[]) && Flagged(P, f, map[], map[], None, NoBits)
    ensures Backed(P, s, map[], map[], NoBits, [[], [], [], []])
  {
  }

  lemma QueuedPop(q: seq<Node>, c: Cell, dist: nat)
    requires Queued(q, c, dist)
    ensures (q[0].x == c.0 && q[0].y == c.1 && q[0].distance == dist) || Queued(q[1..], c, dist)
  {
    var k :| 0 <= k < |q| && q[k].x == c.0 && q[k].y == c.1 && q[k].distance == dist;
    if k > 0 {
      assert q[1..][k - 1] == q[k];
    }
  }

  lemma QueuedPrefix(q: seq<Node>, q': seq<Node>, c: Cell, dist: nat)
    requires Queued(q, c, dist) && |q| <= |q'| && q'[..|q|] == q
    ensures Queued(q', c, dist)
  {
    var k :| 0 <= k < |q| && q[k].x == c.0 && q[k].y == c.1 && q[k].distance == dist;
    assert q'[k] == q[k];
  }

  /**
   * The entry queued for the step `d` out of `n` onto cell `c`: one step
   * further, inheriting the first move, or taking `d` when leaving the start.
   */
  function Successor(n: Node, c: Cell, d: Direction): Node
  {
    Node(c.0, c.1, if n.initialDirection.None? then Some(d) else n.initialDirection, n.distance + 1)
  }

  /** The entries the neighbour loop appends for the directions `ds`, in order: one per unvisited enterable neighbour. */
  ghost function Appended(P: Space, D: map<Cell, nat>, n: Node, ds: seq<Direction>): seq<Node>
    requires P.In((n.x, n.y))
    decreases |ds|
  {
    if ds == [] then []
    else
      var d := ds[|ds| - 1];
      var c := P.Next((n.x, n.y), d);
      Appended(P, D, n, ds[..|ds| - 1]) + (if c !in D && P.Enterable(c) then [Successor(n, c, d)] else [])
  }

  /**
   * What visiting the grid cell of `n` does to the rest of the queue, the
   * closest distance and the bits. A target is not expanded: a strictly
   * closer one resets the bits to its own first move, one at the closest
   * distance adds its first move, and a farther one changes nothing. Any
   * other cell appends its unvisited enterable neighbours and keeps the
   * result.
   */
  ghost predicate VisitEffect(P: Space, f: Direction, D': map<Cell, nat>, n: Node,
                              queue: seq<Node>, closest: Option<nat>, dirs: seq<bool>,
                              queue': seq<Node>, closest': Option<nat>, dirs': seq<bool>)
    requires P.In((n.x, n.y)) && |dirs| == 4
  {
    if P.Matches((n.x, n.y)) then
      queue' == queue &&
      closest' == (if closest.None? || n.distance < closest.value then Some(n.distance) else closest) &&
      dirs' == (if closest.None? || n.distance < closest.value then
                  (if n.initialDirection.Some? then NoBits[SlotOf(f, n.initialDirection.value) := true] else NoBits)
                else if closest == Some(n.distance) && n.initialDirection.Some? then
                  dirs[SlotOf(f, n.initialDirection.value) := true]
                else dirs)
    else
      queue' == queue + Appended(P, D', n, Values) && closest' == closest && dirs' == dirs
  }

  /** One more direction appends at most the entry for that direction. */
  lemma AppendedStep(P: Space, D: map<Cell, nat>, n: Node, ds: seq<Direction>, d: Direction)
    requires P.In((n.x, n.y))
    ensures Appended(P, D, n, ds + [d]) ==
            Appended(P, D, n, ds) +
            (if P.Next((n.x, n.y), d) !in D && P.Enterable(P.Next((n.x, n.y), d))
             then [Successor(n, P.Next((n.x, n.y), d), d)] else [])
  {
    assert (ds + [d])[..|ds|] == ds;
  }

  /** Considering the k-th direction of ds extends the queued nodes by exactly what Appended adds. */
  lemma AppendedGrow(P: Space, D: map<Cell, nat>, n: Node, ds: seq<Direction>, k: nat,
                     base: seq<Node>, q: seq<Node>, grown: seq<Node>)
    requires P.In((n.x, n.y)) && k < |ds|
    requires q == base + Appended(P, D, n, ds[..k])
    requires P.Next((n.x, n.y), ds[k]) !in D && P.Enterable(P.Next((n.x, n.y), ds[k])) ==>
             grown == q + [Successor(n, P.Next((n.x, n.y), ds[k]), ds[k])]
    requires !(P.Next((n.x, n.y), ds[k]) !in D && P.Enterable(P.Next((n.x, n.y), ds[k]))) ==> grown == q
    ensures grown == base + Appended(P, D, n, ds[..k + 1])
  {
    assert ds[..k + 1] == ds[..k] + [ds[k]];
    AppendedStep(P, D, n, ds[..k], ds[k]);
  }

  /** The node queued for a step d out of an expanded node carries the extended walk. */
  lemma StepWitness(P: Space, s: Cell, moves: seq<Direction>, n: Node, d: Direction)
    requires Witness(P, s, moves, n) && P.In((n.x, n.y)) && !P.Matches((n.x, n.y))
    requires P.Enterable(P.Next((n.x, n.y), d))
    ensures Witness(P, s, moves + [d], Successor(n, P.Next((n.x, n.y), d), d))
  {
    assert ValidWalk(P, s, moves) && End(P, s, moves) == (n.x, n.y);
    Extend(P, s, moves, d);
  }

  /**
   * Growing the queue by entries at distance D[c] + 1 that carry their walks
   * keeps the grown tail witnessed and the directions already handled covered.
   */
  lemma Grow(P: Space, s: Cell, D: map<Cell, nat>, q: seq<Node>, walks: seq<seq<Direction>>,
             q': seq<Node>, walks': seq<seq<Direction>>, m: nat, c: Cell, k: nat)
    requires c in D && P.In(c) && m <= |q| == |walks| && |q| <= |q'| == |walks'|
    requires q'[..|q|] == q && walks'[..|q|] == walks
    requires forall j :: m <= j < |q| ==> q[j].distance == D[c] + 1 && Witness(P, s, walks[j], q[j])
    requires forall j :: |q| <= j < |q'| ==> q'[j].distance == D[c] + 1 && Witness(P, s, walks'[j], q'[j])
    requires k <= |Values| && forall j :: 0 <= j < k ==> Covered(P, D, q, c, Values[j])
    ensures q'[..m] == q[..m] && walks'[..m] == walks[..m]
    ensures forall j :: m <= j < |q'| ==> q'[j].distance == D[c] + 1 && Witness(P, s, walks'[j], q'[j])
    ensures forall j :: 0 <= j < k ==> Covered(P, D, q', c, Values[j])
  {
    forall j | m <= j < |q|
      ensures q'[j].distance == D[c] + 1 && Witness(P, s, walks'[j], q'[j])
    {
      assert q'[j] == q[j] && walks'[j] == walks[j];
    }
    forall j | 0 <= j < k
      ensures Covered(P, D, q', c, Values[j])
    {
      assert Covered(P, D, q, c, Values[j]);
      var x := P.Next(c, Values[j]);
      if P.Enterable(x) && !(x in D && D[x] <= D[c] + 1) {
        QueuedPrefix(q, q', x, D[c] + 1);
      }
    }
  }

  lemma CoveredAll(P: Space, D: map<Cell, nat>, q: seq<Node>, c: Cell)
    requires c in D && P.In(c)
    requires forall j :: 0 <= j < |Values| ==> Covered(P, D, q, c, Values[j])
    ensures forall d :: Covered(P, D, q, c, d)
  {
    forall d
      ensures Covered(P, D, q, c, d)
    {
      assert d == Values[if d == UP then 0 else if d == DOWN then 1 else if d == LEFT then 2 else 3];
    }
  }

  /**
   * Popping the front entry, recording its cell (or finding it already
   * recorded) and appending keeps every earlier expanded cell covered.
   */
  lemma PopKeepsCovered(P: Space, D: map<Cell, nat>, q: seq<Node>, cur: nat, D': map<Cell, nat>, q': seq<Node>)
    requires ClosedOk(P, D, q) && q != []
    requires forall k :: 0 <= k < |q| ==> cur <= q[k].distance
    requires forall c :: c in D ==> D[c] <= cur
    requires forall c :: c in D ==> c in D' && D'[c] == D[c]
    requires P.In((q[0].x, q[0].y)) ==> (q[0].x, q[0].y) in D' && D'[(q[0].x, q[0].y)] <= q[0].distance
    requires |q| - 1 <= |q'| && q'[..|q| - 1] == q[1..]
    ensures forall c, d :: c in D && P.In(c) && !P.Matches(c) ==> Covered(P, D', q', c, d)
  {
    forall c, d | c in D && P.In(c) && !P.Matches(c)
      ensures Covered(P, D', q', c, d)
    {
      assert Covered(P, D, q, c, d);
      var n := P.Next(c, d);
      if P.Enterable(n) && !(n in D && D[n] <= D[c] + 1) {
        QueuedPop(q, n, D[c] + 1);
        if !(q[0].x == n.0 && q[0].y == n.1 && q[0].distance == D[c] + 1) {
          QueuedPrefix(q[1..], q', n, D[c] + 1);
        }
      }
    }
  }

  /** Dequeuing an entry whose cell is off the grid or already visited. */
  lemma InvSkip(P: Space, s: Cell, f: Direction, D: map<Cell, nat>, q: seq<Node>, walks: seq<seq<Direction>>,
                cur: nat, closest: Option<nat>, dirs: seq<bool>, wit: seq<seq<Direction>>)
    requires Inv(P, s, f, D, q, walks, cur, closest, dirs, wit) && q != []
    requires !P.In((q[0].x, q[0].y)) || (q[0].x, q[0].y) in D
    ensures Inv(P, s, f, D, q[1..], walks[1..], q[0].distance, closest, dirs, wit)
  {
    PopKeepsCovered(P, D, q, cur, D, q[1..]);
  }

  /** Dequeuing a new cell: the queue, distance and coverage parts of the invariant. */
  lemma InvVisit(P: Space, s: Cell, f: Direction, D: map<Cell, nat>, q: seq<Node>, walks: seq<seq<Direction>>,
                 cur: nat, closest: Option<nat>, dirs: seq<bool>, wit: seq<seq<Direction>>, D': map<Cell, nat>)
    requires Inv(P, s, f, D, q, walks, cur, closest, dirs, wit) && q != []
    requires P.In((q[0].x, q[0].y)) && (q[0].x, q[0].y) !in D && P.Matches((q[0].x, q[0].y))
    requires D' == D[(q[0].x, q[0].y) := q[0].distance]
    ensures QueueOk(P, s, q[1..], walks[1..], q[0].distance) && DistOk(P, s, D', q[0].distance)
    ensures StartOk(P, s, D', q[1..]) && ClosedOk(P, D', q[1..])
  {
    PopKeepsCovered(P, D, q, cur, D', q[1..]);
  }

  /**
   * Dequeuing a new target cell: a strictly closer target resets the bits,
   * then a target at the closest distance sets the bit of its first move.
   */
  lemma InvTarget(P: Space, s: Cell, f: Direction, D: map<Cell, nat>, cur: nat, n: Node, moves: seq<Direction>,
                  closest: Option<nat>, dirs: seq<bool>, wit: seq<seq<Direction>>,
                  closest': Option<nat>, dirs': seq<bool>, wit': seq<seq<Direction>>)
    requires ResultOk(P, s, f, D, cur, closest, dirs, wit) && cur <= n.distance
    requires Witness(P, s, moves, n)
    requires P.In((n.x, n.y)) && (n.x, n.y) !in D && P.Matches((n.x, n.y))
    requires closest' == if closest.None? || n.distance < closest.value then Some(n.distance) else closest
    requires var base := if closest.None? || n.distance < closest.value then NoBits else dirs;
             if closest' == Some(n.distance) && n.initialDirection.Some? then
               var i := SlotOf(f, n.initialDirection.value);
               dirs' == base[i := true] && wit' == wit[i := moves]
             else dirs' == base && wit' == wit
    ensures ResultOk(P, s, f, D[(n.x, n.y) := n.distance], n.distance, closest', dirs', wit')
  {
    var D' := D[(n.x, n.y) := n.distance];
    if n.distance > 0 {
      assert TargetWalk(P, s, moves);
    }
    forall c | c in D' && P.In(c) && P.Matches(c)
      ensures closest'.Some? && closest'.value <= D'[c]
    {
    }
    var reset := closest.None? || n.distance < closest.value;
    if reset {
      forall i | 0 <= i < 4 && dirs'[i]
        ensures closest'.Some? && Bit(P, s, f, wit'[i], closest'.value, i)
      {
      }
    } else {
      forall i | 0 <= i < 4 && dirs'[i]
        ensures closest'.Some? && Bit(P, s, f, wit'[i], closest'.value, i)
      {
        if !dirs[i] {
          assert i == SlotOf(f, n.initialDirection.value);
        }
      }
    }
  }

  /** Dequeuing a new non-target cell and appending its enterable unvisited neighbours. */
  lemma InvExpand(P: Space, s: Cell, f: Direction, D: map<Cell, nat>, q: seq<Node>, walks: seq<seq<Direction>>,
                  cur: nat, closest: Option<nat>, dirs: seq<bool>, wit: seq<seq<Direction>>,
                  D': map<Cell, nat>, q': seq<Node>, walks': seq<seq<Direction>>)
    requires Inv(P, s, f, D, q, walks, cur, closest, dirs, wit) && q != []
    requires P.In((q[0].x, q[0].y)) && (q[0].x, q[0].y) !in D && !P.Matches((q[0].x, q[0].y))
    requires D' == D[(q[0].x, q[0].y) := q[0].distance]
    requires |q| - 1 <= |q'| && q'[..|q| - 1] == q[1..] && |walks'| == |q'| && walks'[..|q| - 1] == walks[1..]
    requires forall j :: |q| - 1 <= j < |q'| ==> q'[j].distance == q[0].distance + 1 && Witness(P, s, walks'[j], q'[j])
    requires forall d :: Covered(P, D', q', (q[0].x, q[0].y), d)
    ensures Inv(P, s, f, D', q', walks', q[0].distance, closest, dirs, wit)
  {
    var n := q[0];
    var c := (n.x, n.y);
    PopKeepsCovered(P, D, q, cur, D', q');
    forall k | 0 <= k < |q'|
      ensures Witness(P, s, walks'[k], q'[k]) && n.distance <= q'[k].distance <= n.distance + 1
    {
      if k < |q| - 1 {
        assert q'[k] == q[k + 1] && walks'[k] == walks[k + 1];
      }
    }
    forall j, k | 0 <= j < k < |q'|
      ensures q'[j].distance <= q'[k].distance
    {
      if k < |q| - 1 {
        assert q'[j] == q[j + 1] && q'[k] == q[k + 1];
      }
    }
    assert QueueOk(P, s, q', walks', n.distance);
  }

  /** With the queue drained, the next cell of a walk is visited at most one step after the current one. */
  lemma DrainedStep(P: Space, s: Cell, D: map<Cell, nat>, moves: seq<Direction>, i: nat)
    requires ClosedOk(P, D, []) && ValidWalk(P, s, moves) && 0 < i <= |moves|
    requires At(P, s, moves, i - 1) in D && D[At(P, s, moves, i - 1)] <= i - 1
    ensures At(P, s, moves, i) in D && D[At(P, s, moves, i)] <= i
  {
    var c := At(P, s, moves, i - 1);
    assert !P.Matches(c) && P.Enterable(P.Next(c, moves[i - 1]));
    assert Covered(P, D, [], c, moves[i - 1]);
  }

  /**
   * With the queue drained, every cell on a walk the search can follow has
   * been visited no later than its position on the walk.
   */
  lemma {:induction false} Reached(P: Space, s: Cell, D: map<Cell, nat>, moves: seq<Direction>, i: nat)
    requires StartOk(P, s, D, []) && (s in D ==> D[s] == 0) && ClosedOk(P, D, [])
    requires ValidWalk(P, s, moves) && i <= |moves|
    ensures At(P, s, moves, i) in D && D[At(P, s, moves, i)] <= i
    decreases i
  {
    if i > 0 {
      Reached(P, s, D, moves, i - 1);
      DrainedStep(P, s, D, moves, i);
    }
  }

  /** What the drained search's bits mean. */
  lemma Conclude(P: Space, s: Cell, f: Direction, D: map<Cell, nat>, cur: nat,
                 closest: Option<nat>, dirs: seq<bool>, wit: seq<seq<Direction>>)
    requires Inv(P, s, f, D, [], [], cur, closest, dirs, wit)
    ensures |dirs| == 4
    ensures forall i :: 0 <= i < 4 && dirs[i] ==>
              Nearest(P, s, wit[i]) && |wit[i]| > 0 && wit[i][0] == Relative(f, i)
    ensures (exists i :: 0 <= i < 4 && dirs[i]) <==> (exists moves :: TargetWalk(P, s, moves) && |moves| > 0)
  {
    assert StartOk(P, s, D, []) && DistOk(P, s, D, cur) && ClosedOk(P, D, []);
    forall other | TargetWalk(P, s, other)
      ensures closest.Some? && closest.value <= |other|
    {
      Reached(P, s, D, other, |other|);
    }
    ConcludeResult(P, s, f, D, cur, closest, dirs, wit);
  }

  /** Once every target walk is at least the closest distance long, the bits say what the search promises. */
  lemma ConcludeResult(P: Space, s: Cell, f: Direction, D: map<Cell, nat>, cur: nat,
                       closest: Option<nat>, dirs: seq<bool>, wit: seq<seq<Direction>>)
    requires ResultOk(P, s, f, D, cur, closest, dirs, wit)
    requires forall other :: TargetWalk(P, s, other) ==> closest.Some? && closest.value <= |other|
    ensures |dirs| == 4
    ensures forall i :: 0 <= i < 4 && dirs[i] ==>
              Nearest(P, s, wit[i]) && |wit[i]| > 0 && wit[i][0] == Relative(f, i)
    ensures (exists i :: 0 <= i < 4 && dirs[i]) <==> (exists moves :: TargetWalk(P, s, moves) && |moves| > 0)
  {
    forall i | 0 <= i < 4 && dirs[i]
      ensures Nearest(P, s, wit[i]) && |wit[i]| > 0 && wit[i][0] == Relative(f, i)
    {
      assert Bit(P, s, f, wit[i], closest.value, i);
    }
    if moves :| TargetWalk(P, s, moves) && |moves| > 0 {
      FirstMoveLeavesStart(P, s, moves);
      assert closest.Some? && closest.value > 0;
      var i := if dirs[0] then 0 else if dirs[1] then 1 else if dirs[2] then 2 else 3;
      assert dirs[i];
    }
    if i :| 0 <= i < 4 && dirs[i] {
      assert TargetWalk(P, s, wit[i]) && |wit[i]| > 0;
    }
  }

  // ---------------------------------------------------------------------
  // No closest target is missed. W maps each visited cell to the walk of
  // the queue entry it was dequeued from.
  // ---------------------------------------------------------------------

  /** Some set bit names the first move of a nearest walk that ends on `c`. */
  ghost predicate TargetFlagged(P: Space, s: Cell, f: Direction, bits: seq<bool>, c: Cell)
  {
    exists i: nat, moves: seq<Direction> ::
      i < 4 && i < |bits| && bits[i] && Nearest(P, s, moves) && |moves| > 0 &&
      End(P, s, moves) == c && moves[0] == Relative(f, i)
  }

  /** Some nearest walk of at least one move ends on `c`. */
  ghost predicate NearestTarget(P: Space, s: Cell, c: Cell)
  {
    exists moves :: Nearest(P, s, moves) && |moves| > 0 && End(P, s, moves) == c
  }

  /** Every target that a nearest walk ends on is flagged by some bit. */
  ghost predicate FlagsEveryTarget(P: Space, s: Cell, f: Direction, bits: seq<bool>)
  {
    forall c :: NearestTarget(P, s, c) ==> TargetFlagged(P, s, f, bits, c)
  }

  /** Each visited cell was reached by a walk of its distance. */
  ghost predicate Walked(P: Space, s: Cell, D: map<Cell, nat>, W: map<Cell, seq<Direction>>)
  {
    forall c :: c in D ==>
      c in W && |W[c]| == D[c] && (D[c] > 0 ==> ValidWalk(P, s, W[c]) && End(P, s, W[c]) == c)
  }

  /** Every visited target at the closest distance has the bit of its walk's first move set. */
  ghost predicate Flagged(P: Space, f: Direction, D: map<Cell, nat>, W: map<Cell, seq<Direction>>,
                          closest: Option<nat>, dirs: seq<bool>)
    requires |dirs| == 4
  {
    forall c :: c in D && c in W && P.In(c) && P.Matches(c) && closest == Some(D[c]) && |W[c]| > 0 ==>
      dirs[SlotOf(f, W[c][0])]
  }

  /** Visiting a dequeued cell records the walk its queue entry carries. */
  lemma WalkedVisit(P: Space, s: Cell, D: map<Cell, nat>, W: map<Cell, seq<Direction>>, n: Node, moves: seq<Direction>)
    requires Walked(P, s, D, W) && Witness(P, s, moves, n)
    ensures Walked(P, s, D[(n.x, n.y) := n.distance], W[(n.x, n.y) := moves])
  {
  }

  /** Visiting a cell that is not a target leaves every flag in place. */
  lemma FlaggedExpand(P: Space, f: Direction, D: map<Cell, nat>, W: map<Cell, seq<Direction>>,
                      closest: Option<nat>, dirs: seq<bool>, c: Cell, d: nat, moves: seq<Direction>)
    requires |dirs| == 4 && Flagged(P, f, D, W, closest, dirs)
    requires P.In(c) && !P.Matches(c)
    ensures Flagged(P, f, D[c := d], W[c := moves], closest, dirs)
  {
    var D', W' := D[c := d], W[c := moves];
    forall c' | c' in D' && c' in W' && P.In(c') && P.Matches(c') && closest == Some(D'[c']) && |W'[c']| > 0
      ensures dirs[SlotOf(f, W'[c'][0])]
    {
      assert c' != c && D'[c'] == D[c'] && W'[c'] == W[c'];
    }
  }

  /**
   * Recording a target: a strictly closer one resets the bits and leaves no
   * other visited target at the new closest distance; a target at the
   * closest distance gets the bit of its first move.
   */
  lemma FlaggedTarget(P: Space, s: Cell, f: Direction, D: map<Cell, nat>, W: map<Cell, seq<Direction>>, cur: nat,
                      n: Node, moves: seq<Direction>, closest: Option<nat>, dirs: seq<bool>, wit: seq<seq<Direction>>,
                      closest': Option<nat>, dirs': seq<bool>)
    requires ResultOk(P, s, f, D, cur, closest, dirs, wit) && DistOk(P, s, D, cur) && cur <= n.distance
    requires Flagged(P, f, D, W, closest, dirs) && Witness(P, s, moves, n)
    requires P.In((n.x, n.y)) && (n.x, n.y) !in D
    requires closest' == if closest.None? || n.distance < closest.value then Some(n.distance) else closest
    requires closest.None? || n.distance < closest.value ==>
               dirs' == if n.initialDirection.Some? then NoBits[SlotOf(f, n.initialDirection.value) := true] else NoBits
    requires !(closest.None? || n.distance < closest.value) ==>
               dirs' == if closest == Some(n.distance) && n.initialDirection.Some? then dirs[SlotOf(f, n.initialDirection.value) := true] else dirs
    ensures |dirs'| == 4 && Flagged(P, f, D[(n.x, n.y) := n.distance], W[(n.x, n.y) := moves], closest', dirs')
  {
    var c := (n.x, n.y);
    var D', W' := D[c := n.distance], W[c := moves];
    var reset := closest.None? || n.distance < closest.value;
    forall c' | c' in D' && c' in W' && P.In(c') && P.Matches(c') && closest' == Some(D'[c']) && |W'[c']| > 0
      ensures dirs'[SlotOf(f, W'[c'][0])]
    {
      if c' == c {
        assert n.initialDirection == Some(moves[0]);
      } else {
        assert D'[c'] == D[c'] && W'[c'] == W[c'] && D[c'] <= cur;
        if !reset {
          assert dirs[SlotOf(f, W[c'][0])];
        }
      }
    }
  }

  /** With the queue drained, every target a nearest walk ends on is flagged. */
  lemma ConcludeFlags(P: Space, s: Cell, f: Direction, D: map<Cell, nat>, W: map<Cell, seq<Direction>>, cur: nat,
                      closest: Option<nat>, dirs: seq<bool>, wit: seq<seq<Direction>>)
    requires Inv(P, s, f, D, [], [], cur, closest, dirs, wit)
    requires Walked(P, s, D, W) && Flagged(P, f, D, W, closest, dirs)
    ensures FlagsEveryTarget(P, s, f, dirs)
  {
    assert StartOk(P, s, D, []) && DistOk(P, s, D, cur) && ClosedOk(P, D, []);
    forall c | NearestTarget(P, s, c)
      ensures TargetFlagged(P, s, f, dirs, c)
    {
      var moves :| Nearest(P, s, moves) && |moves| > 0 && End(P, s, moves) == c;
      Reached(P, s, D, moves, |moves|);
      FirstMoveLeavesStart(P, s, moves);
      NearestFlagged(P, s, f, D, W, cur, closest, dirs, wit, moves);
    }
  }

  /** Every set bit's walk ends on a visited cell whose recorded walk it is. */
  ghost predicate Backed(P: Space, s: Cell, D: map<Cell, nat>, W: map<Cell, seq<Direction>>,
                         dirs: seq<bool>, wit: seq<seq<Direction>>)
    requires |dirs| == 4 && |wit| == 4
  {
    forall i :: 0 <= i < 4 && dirs[i] ==>
      P.In(s) && End(P, s, wit[i]) in D && End(P, s, wit[i]) in W && W[End(P, s, wit[i])] == wit[i]
  }

  /** Recording a newly visited cell keeps every set bit backed. */
  lemma BackedGrow(P: Space, s: Cell, D: map<Cell, nat>, W: map<Cell, seq<Direction>>, c: Cell, d: nat, moves: seq<Direction>,
                   dirs: seq<bool>, wit: seq<seq<Direction>>)
    requires |dirs| == 4 && |wit| == 4
    requires Backed(P, s, D, W, dirs, wit) && c !in D
    ensures Backed(P, s, D[c := d], W[c := moves], dirs, wit)
  {
    forall i | 0 <= i < 4 && dirs[i]
      ensures End(P, s, wit[i]) in D[c := d] && W[c := moves][End(P, s, wit[i])] == wit[i]
    {
      assert End(P, s, wit[i]) in D;
    }
  }

  /** Setting a bit with the recorded walk of a visited node that moved at least once keeps the bits backed. */
  lemma BackedSet(P: Space, s: Cell, D: map<Cell, nat>, W: map<Cell, seq<Direction>>, n: Node, moves: seq<Direction>,
                  dirs: seq<bool>, wit: seq<seq<Direction>>, k: int)
    requires |dirs| == 4 && |wit| == 4 && 0 <= k < 4
    requires Backed(P, s, D, W, dirs, wit)
    requires Witness(P, s, moves, n) && n.initialDirection.Some?
    requires (n.x, n.y) in D && (n.x, n.y) in W && W[(n.x, n.y)] == moves
    ensures Backed(P, s, D, W, dirs[k := true], wit[k := moves])
  {
    assert n.distance > 0;
  }

  /** Some nearest walk ends on `c` and starts with the move `d`. */
  ghost predicate NearestVia(P: Space, s: Cell, c: Cell, d: Direction)
  {
    exists moves :: Nearest(P, s, moves) && |moves| > 0 && End(P, s, moves) == c && moves[0] == d
  }

  /**
   * `first` names exactly the targets that nearest walks end on, each with
   * the first move of a nearest walk to it.
   */
  ghost predicate FirstMoves(P: Space, s: Cell, first: map<Cell, Direction>)
  {
    (forall c :: NearestTarget(P, s, c) ==> c in first) &&
    (forall c :: c in first ==> NearestVia(P, s, c, first[c]))
  }

  /** The cells `first` names are exactly the targets nearest walks end on. */
  lemma FirstMovesExact(P: Space, s: Cell, first: map<Cell, Direction>, c: Cell)
    requires FirstMoves(P, s, first)
    ensures c in first <==> NearestTarget(P, s, c)
  {
    if c in first {
      assert NearestVia(P, s, c, first[c]);
    }
  }

  /** The set bits are exactly the slots of the moves `first` names. */
  ghost predicate BitsOf(f: Direction, first: map<Cell, Direction>, bits: seq<bool>)
  {
    |bits| == 4 && forall i :: 0 <= i < 4 ==> (bits[i] <==> exists c :: c in first && SlotOf(f, first[c]) == i)
  }

  /**
   * One first move per nearest target: the bits are set for exactly one
   * chosen first move of a nearest walk to each nearest target.
   */
  ghost predicate BitsAreFirstMoves(P: Space, s: Cell, f: Direction, bits: seq<bool>)
  {
    exists first :: FirstMoves(P, s, first) && BitsOf(f, first, bits)
  }

  /** A single nearest target sets exactly one bit. */
  lemma SingleTargetOneBit(P: Space, s: Cell, f: Direction, bits: seq<bool>, c: Cell)
    requires BitsAreFirstMoves(P, s, f, bits)
    requires NearestTarget(P, s, c) && forall c' :: NearestTarget(P, s, c') ==> c' == c
    ensures exists i :: 0 <= i < 4 && bits[i] && forall j :: 0 <= j < 4 && bits[j] ==> j == i
  {
    var first :| FirstMoves(P, s, first) && BitsOf(f, first, bits);
    assert c in first;
    var i := SlotOf(f, first[c]);
    assert bits[i];
    forall j | 0 <= j < 4 && bits[j]
      ensures j == i
    {
      var c' :| c' in first && SlotOf(f, first[c']) == j;
      FirstMovesExact(P, s, first, c');
    }
  }

  /** A visited target at the closest distance is a nearest target, reached by its recorded walk. */
  lemma RecordedNearest(P: Space, s: Cell, D: map<Cell, nat>, W: map<Cell, seq<Direction>>, closest: Option<nat>, c: Cell)
    requires Walked(P, s, D, W)
    requires forall other :: TargetWalk(P, s, other) ==> closest.Some? && closest.value <= |other|
    requires c in D && c in W && P.In(c) && P.Matches(c) && closest == Some(D[c]) && |W[c]| > 0
    ensures Nearest(P, s, W[c]) && End(P, s, W[c]) == c
  {
    assert TargetWalk(P, s, W[c]);
  }

  /** With the queue drained, the bits are one first move per nearest target. */
  lemma ConcludeFirstMoves(P: Space, s: Cell, f: Direction, D: map<Cell, nat>, W: map<Cell, seq<Direction>>, cur: nat,
                           closest: Option<nat>, dirs: seq<bool>, wit: seq<seq<Direction>>)
    requires Inv(P, s, f, D, [], [], cur, closest, dirs, wit)
    requires Walked(P, s, D, W) && Flagged(P, f, D, W, closest, dirs) && Backed(P, s, D, W, dirs, wit)
    ensures BitsAreFirstMoves(P, s, f, dirs)
  {
    assert StartOk(P, s, D, []) && DistOk(P, s, D, cur) && ClosedOk(P, D, []);
    forall other | TargetWalk(P, s, other)
      ensures closest.Some? && closest.value <= |other|
    {
      Reached(P, s, D, other, |other|);
    }
    var first := map c | c in D && c in W && P.In(c) && P.Matches(c) && closest == Some(D[c]) && |W[c]| > 0 :: W[c][0];
    forall c | c in first
      ensures NearestTarget(P, s, c)
      ensures NearestVia(P, s, c, first[c])
    {
      RecordedNearest(P, s, D, W, closest, c);
    }
    forall c | NearestTarget(P, s, c)
      ensures c in first
    {
      var moves :| Nearest(P, s, moves) && |moves| > 0 && End(P, s, moves) == c;
      Reached(P, s, D, moves, |moves|);
      FirstMoveLeavesStart(P, s, moves);
      NearestFlagged(P, s, f, D, W, cur, closest, dirs, wit, moves);
    }
    assert FirstMoves(P, s, first);
    forall i | 0 <= i < 4
      ensures dirs[i] <==> exists c :: c in first && SlotOf(f, first[c]) == i
    {
      if dirs[i] {
        var c := End(P, s, wit[i]);
        assert Bit(P, s, f, wit[i], closest.value, i);
        assert c in first && first[c] == wit[i][0];
      }
    }
    assert BitsOf(f, first, dirs);
  }

  /** A closest distance recorded away from a start that is not a target has some bit set. */
  lemma SomeBitSet(P: Space, s: Cell, f: Direction, D: map<Cell, nat>, cur: nat,
                   closest: Option<nat>, dirs: seq<bool>, wit: seq<seq<Direction>>)
    requires ResultOk(P, s, f, D, cur, closest, dirs, wit) && closest.Some?
    requires P.In(s) && !P.Matches(s)
    ensures closest.value > 0 && (dirs[0] || dirs[1] || dirs[2] || dirs[3])
  {
  }

  /** One nearest walk whose end was visited: it was visited at the closest distance and its recorded walk is flagged. */
  lemma NearestFlagged(P: Space, s: Cell, f: Direction, D: map<Cell, nat>, W: map<Cell, seq<Direction>>, cur: nat,
                       closest: Option<nat>, dirs: seq<bool>, wit: seq<seq<Direction>>, moves: seq<Direction>)
    requires ResultOk(P, s, f, D, cur, closest, dirs, wit)
    requires Walked(P, s, D, W) && Flagged(P, f, D, W, closest, dirs)
    requires Nearest(P, s, moves) && |moves| > 0 && !P.Matches(s)
    requires End(P, s, moves) in D && D[End(P, s, moves)] <= |moves|
    ensures TargetFlagged(P, s, f, dirs, End(P, s, moves))
    ensures End(P, s, moves) in W && closest == Some(D[End(P, s, moves)]) && |W[End(P, s, moves)]| > 0
  {
    var c := End(P, s, moves);
    assert P.In(c) && P.Matches(c);
    assert closest.Some? && closest.value <= D[c];
    SomeBitSet(P, s, f, D, cur, closest, dirs, wit);
    var i := if dirs[0] then 0 else if dirs[1] then 1 else if dirs[2] then 2 else 3;
    assert Bit(P, s, f, wit[i], closest.value, i);
    assert TargetWalk(P, s, wit[i]);
    assert |moves| <= |wit[i]|;
    var w := W[c];
    assert |w| == D[c] == closest.value;
    assert ValidWalk(P, s, w) && End(P, s, w) == c;
    assert dirs[SlotOf(f, w[0])];
    forall other | TargetWalk(P, s, other)
      ensures |w| <= |other|
    {
    }
    assert Nearest(P, s, w);
  }

  // ---------------------------------------------------------------------
  // The number of cells, bounding how often the search dequeues.
  // ---------------------------------------------------------------------

  /** The cells of a width-by-height grid. */
  ghost function Cells(width: nat, height: nat): set<Cell>
  {
    if height == 0 then {} else Cells(width, height - 1) + Row(width, height - 1)
  }

  ghost function Row(width: nat, y: int): set<Cell>
  {
    if width == 0 then {} else Row(width - 1, y) + {(width - 1, y)}
  }

  lemma {:induction false} InRow(width: nat, y: int, c: Cell)
    ensures c in Row(width, y) <==> 0 <= c.0 < width && c.1 == y
  {
    if width > 0 {
      InRow(width - 1, y, c);
    }
  }

  lemma {:induction false} InCells(width: nat, height: nat, c: Cell)
    ensures c in Cells(width, height) <==> 0 <= c.0 < width && 0 <= c.1 < height
  {
    if height > 0 {
      InCells(width, height - 1, c);
      InRow(width, height - 1, c);
    }
  }

  lemma {:induction false} RowSize(width: nat, y: int)
    ensures |Row(width, y)| == width
  {
    if width > 0 {
      RowSize(width - 1, y);
      InRow(width - 1, y, (width - 1, y));
    }
  }

  lemma {:induction false} CellsSize(width: nat, height: nat)
    ensures |Cells(width, height)| == width * height
  {
    if height > 0 {
      CellsSize(width, height - 1);
      RowSize(width, height - 1);
      RowApart(width, height - 1);
      assert width * height == width * (height - 1) + width;
    }
  }

  /** Row y is not among the cells of the rows below it. */
  lemma RowApart(width: nat, y: nat)
    ensures Cells(width, y) * Row(width, y) == {}
  {
    forall c | c in Row(width, y)
      ensures c !in Cells(width, y)
    {
      InRow(width, y, c);
      InCells(width, y, c);
    }
  }

  lemma SubsetSize<T>(a: set<T>, b: set<T>)
    requires a <= b
    ensures |a| <= |b|
  {
    assert b == a + (b - a);
  }
}
