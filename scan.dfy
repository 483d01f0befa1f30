/**
 * The ghost line-of-sight scan of addGhostInputs: from the tile next to
 * Pac-Man, walk straight on while tiles are walkable and stop at the first
 * tile that holds a ghost; the first ghost in list order on that tile decides.
 */
module Scan {
  import opened Wrappers
  import opened Directions
  import opened World

  /** Every entity of the list is a ghost: what the GHOST filter of the source leaves. */
  predicate AllGhosts(ghosts: seq<Entity>)
  {
    forall k :: 0 <= k < |ghosts| ==> ghosts[k].Ghost?
  }

  /** The entities whose type is GHOST, in list order. */
  function Ghosts(entities: seq<Entity>): (ghosts: seq<Entity>)
    ensures AllGhosts(ghosts) && |ghosts| <= |entities|
    ensures forall e :: e in ghosts <==> e in entities && e.Ghost?
  {
    if entities == [] then []
    else if entities[0].Ghost? then [entities[0]] + Ghosts(entities[1..])
    else Ghosts(entities[1..])
  }

  /** The index of the first ghost standing on `c`, or |ghosts| when none does. */
  function FirstOn(ghosts: seq<Entity>, c: Cell): (k: nat)
    ensures k <= |ghosts| && (k < |ghosts| ==> ghosts[k].position == c)
    ensures forall j :: 0 <= j < k ==> ghosts[j].position != c
  {
    if ghosts == [] then 0
    else if ghosts[0].position == c then 0
    else 1 + FirstOn(ghosts[1..], c)
  }

  /** The index in `entities` of the first ghost standing on `c`, or |entities| when none does. */
  function FirstGhostOn(entities: seq<Entity>, c: Cell): (k: nat)
    ensures k <= |entities| && (k < |entities| ==> entities[k].Ghost? && entities[k].position == c)
    ensures forall j :: 0 <= j < k ==> !(entities[j].Ghost? && entities[j].position == c)
  {
    if entities == [] then 0
    else if entities[0].Ghost? && entities[0].position == c then 0
    else 1 + FirstGhostOn(entities[1..], c)
  }

  /**
   * Filtering keeps the entity order: the first ghost on `c` among the
   * filtered ghosts is the first ghost entity on `c` in the entity list.
   */
  lemma {:induction false} GhostsKeepOrder(entities: seq<Entity>, c: Cell)
    ensures FirstOn(Ghosts(entities), c) < |Ghosts(entities)| <==> FirstGhostOn(entities, c) < |entities|
    ensures FirstGhostOn(entities, c) < |entities| ==>
              Ghosts(entities)[FirstOn(Ghosts(entities), c)] == entities[FirstGhostOn(entities, c)]
  {
    if entities != [] {
      GhostsKeepOrder(entities[1..], c);
    }
  }

  /** Tile.isWalkable for the tile at `c`. */
  predicate Walkable(tiles: seq<seq<TileState>>, walkable: TileState -> bool, c: Cell)
    requires InGrid(tiles, c)
  {
    walkable(tiles[c.1][c.0])
  }

  /** A tile the scan walks over without stopping: walkable and free of ghosts. */
  predicate Clear(tiles: seq<seq<TileState>>, walkable: TileState -> bool, ghosts: seq<Entity>, c: Cell)
    requires InGrid(tiles, c)
  {
    Walkable(tiles, walkable, c) && FirstOn(ghosts, c) == |ghosts|
  }

  /** The tile `i` steps from `c` in direction `d` on the wrapping grid. */
  function Ahead(tiles: seq<seq<TileState>>, c: Cell, d: Direction, i: nat): (t: Cell)
    requires InGrid(tiles, c)
    ensures InGrid(tiles, t)
    decreases i
  {
    if i == 0 then c else Ahead(tiles, Neighbour(tiles, c, d), d, i - 1)
  }

  /** The number of tiles of the grid: the length this model gives the scan. */
  function Bound(tiles: seq<seq<TileState>>): nat
    requires Rectangular(tiles)
  {
    |tiles| * |tiles[0]|
  }

  /**
   * The pair (pathClear, frightenedGhostAhead) of a scan whose current tile
   * is `c`, allowed `fuel` more tiles: a wall, or running out of tiles,
   * leaves (true, false); a frightened ghost gives (true, true); any other
   * ghost gives (false, false).
   */
  function Ray(tiles: seq<seq<TileState>>, walkable: TileState -> bool, ghosts: seq<Entity>,
               c: Cell, d: Direction, fuel: nat): (bool, bool)
    requires InGrid(tiles, c) && AllGhosts(ghosts)
    decreases fuel
  {
    if fuel == 0 || !Walkable(tiles, walkable, c) then (true, false)
    else
      var k := FirstOn(ghosts, c);
      if k < |ghosts| then
        if ghosts[k].frightened then (true, true) else (false, false)
      else Ray(tiles, walkable, ghosts, Neighbour(tiles, c, d), d, fuel - 1)
  }

  /**
   * The scan as the source writes it, with no bound on its length: None
   * when it is still walking after `fuel` tiles.
   */
  function SourceRay(tiles: seq<seq<TileState>>, walkable: TileState -> bool, ghosts: seq<Entity>,
                     c: Cell, d: Direction, fuel: nat): Option<(bool, bool)>
    requires InGrid(tiles, c) && AllGhosts(ghosts)
    decreases fuel
  {
    if fuel == 0 then None
    else if !Walkable(tiles, walkable, c) then Some((true, false))
    else
      var k := FirstOn(ghosts, c);
      if k < |ghosts| then
        if ghosts[k].frightened then Some((true, true)) else Some((false, false))
      else SourceRay(tiles, walkable, ghosts, Neighbour(tiles, c, d), d, fuel - 1)
  }

  /** A scan never reports a blocked path together with a frightened ghost. */
  lemma {:induction false} RayNeverBlockedAndFrightened(tiles: seq<seq<TileState>>, walkable: TileState -> bool,
                                                        ghosts: seq<Entity>, c: Cell, d: Direction, fuel: nat)
    requires InGrid(tiles, c) && AllGhosts(ghosts)
    ensures Ray(tiles, walkable, ghosts, c, d, fuel) != (false, true)
    decreases fuel
  {
    if fuel > 0 && Walkable(tiles, walkable, c) && FirstOn(ghosts, c) == |ghosts| {
      RayNeverBlockedAndFrightened(tiles, walkable, ghosts, Neighbour(tiles, c, d), d, fuel - 1);
    }
  }

  /**
   * Only the first tile that stops the walk decides: when the `k` tiles
   * before it are clear, a wall there leaves (true, false), and a ghost there
   * gives (true, true) or (false, false) as the first ghost on it is
   * frightened or not, whatever lies beyond.
   */
  lemma {:induction false} FirstStopDecides(tiles: seq<seq<TileState>>, walkable: TileState -> bool,
                                            ghosts: seq<Entity>, c: Cell, d: Direction, fuel: nat, k: nat)
    requires InGrid(tiles, c) && AllGhosts(ghosts) && k < fuel
    requires forall i :: 0 <= i < k ==> Clear(tiles, walkable, ghosts, Ahead(tiles, c, d, i))
    requires !Clear(tiles, walkable, ghosts, Ahead(tiles, c, d, k))
    ensures var t := Ahead(tiles, c, d, k);
            var g := FirstOn(ghosts, t);
            Ray(tiles, walkable, ghosts, c, d, fuel) ==
              if !Walkable(tiles, walkable, t) then (true, false)
              else if ghosts[g].frightened then (true, true)
              else (false, false)
    decreases k
  {
    if k > 0 {
      var n := Neighbour(tiles, c, d);
      assert Clear(tiles, walkable, ghosts, Ahead(tiles, c, d, 0));
      forall i | 0 <= i < k - 1
        ensures Clear(tiles, walkable, ghosts, Ahead(tiles, n, d, i))
      {
        assert Ahead(tiles, c, d, i + 1) == Ahead(tiles, n, d, i);
      }
      assert Ahead(tiles, c, d, k) == Ahead(tiles, n, d, k - 1);
      FirstStopDecides(tiles, walkable, ghosts, n, d, fuel - 1, k - 1);
    }
  }

  /** With the same number of tiles, the bounded scan answers what the source's scan answers, and (true, false) where the source would still be walking. */
  lemma {:induction false} RayBoundsSource(tiles: seq<seq<TileState>>, walkable: TileState -> bool,
                                           ghosts: seq<Entity>, c: Cell, d: Direction, fuel: nat)
    requires InGrid(tiles, c) && AllGhosts(ghosts)
    ensures Ray(tiles, walkable, ghosts, c, d, fuel) ==
            match SourceRay(tiles, walkable, ghosts, c, d, fuel)
            case None => (true, false)
            case Some(r) => r
    decreases fuel
  {
    if fuel > 0 && Walkable(tiles, walkable, c) && FirstOn(ghosts, c) == |ghosts| {
      RayBoundsSource(tiles, walkable, ghosts, Neighbour(tiles, c, d), d, fuel - 1);
    }
  }

  /** The source's scan is still walking after `fuel` tiles exactly when the first `fuel` tiles are clear. */
  lemma {:induction false} SourceRayWalking(tiles: seq<seq<TileState>>, walkable: TileState -> bool,
                                            ghosts: seq<Entity>, c: Cell, d: Direction, fuel: nat)
    requires InGrid(tiles, c) && AllGhosts(ghosts)
    ensures SourceRay(tiles, walkable, ghosts, c, d, fuel).None? ==>
            forall i :: 0 <= i < fuel ==> Clear(tiles, walkable, ghosts, Ahead(tiles, c, d, i))
    ensures (forall i :: 0 <= i < fuel ==> Clear(tiles, walkable, ghosts, Ahead(tiles, c, d, i))) ==>
            SourceRay(tiles, walkable, ghosts, c, d, fuel).None?
    decreases fuel
  {
    if fuel > 0 {
      var n := Neighbour(tiles, c, d);
      SourceRayWalking(tiles, walkable, ghosts, n, d, fuel - 1);
      assert Ahead(tiles, c, d, 0) == c;
      if Clear(tiles, walkable, ghosts, c) {
        assert SourceRay(tiles, walkable, ghosts, c, d, fuel) == SourceRay(tiles, walkable, ghosts, n, d, fuel - 1);
        if forall i :: 0 <= i < fuel - 1 ==> Clear(tiles, walkable, ghosts, Ahead(tiles, n, d, i)) {
          forall i | 0 < i < fuel
            ensures Clear(tiles, walkable, ghosts, Ahead(tiles, c, d, i))
          {
            assert Ahead(tiles, c, d, i) == Ahead(tiles, n, d, i - 1);
          }
        } else {
          var k :| 0 <= k < fuel - 1 && !Clear(tiles, walkable, ghosts, Ahead(tiles, n, d, k));
          assert Ahead(tiles, c, d, k + 1) == Ahead(tiles, n, d, k);
        }
      } else {
        assert !Clear(tiles, walkable, ghosts, Ahead(tiles, c, d, 0));
        assert SourceRay(tiles, walkable, ghosts, c, d, fuel).Some?;
      }
    }
  }

  /**
   * The source's scan never stops on a grid whose tiles are all walkable
   * and that holds no ghost: the walk wraps around the grid for ever.
   */
  lemma {:induction false} UnboundedScanNeverStops(tiles: seq<seq<TileState>>, walkable: TileState -> bool,
                                                   c: Cell, d: Direction, fuel: nat)
    requires InGrid(tiles, c)
    requires forall t :: walkable(t)
    ensures SourceRay(tiles, walkable, [], c, d, fuel) == None
    decreases fuel
  {
    if fuel > 0 {
      UnboundedScanNeverStops(tiles, walkable, Neighbour(tiles, c, d), d, fuel - 1);
    }
  }

  /** One more step appended at the end of a straight walk. */
  lemma {:induction false} AheadSplit(tiles: seq<seq<TileState>>, c: Cell, d: Direction, a: nat, b: nat)
    requires InGrid(tiles, c)
    ensures Ahead(tiles, c, d, a + b) == Ahead(tiles, Ahead(tiles, c, d, a), d, b)
    decreases a
  {
    if a > 0 {
      AheadSplit(tiles, Neighbour(tiles, c, d), d, a - 1, b);
    }
  }

  /** One coordinate after `i` steps of `s` on a wrapping axis of length `size`. */
  function Slide(v: int, s: int, size: nat, i: nat): int
  {
    if i == 0 then v else Wrap(Slide(v, s, size, i - 1) + s, size)
  }

  /** A straight walk moves each coordinate along its own axis. */
  lemma {:induction false} AheadSlides(tiles: seq<seq<TileState>>, c: Cell, d: Direction, i: nat)
    requires InGrid(tiles, c)
    ensures Ahead(tiles, c, d, i) == (Slide(c.0, d.Dx(), |tiles[0]|, i), Slide(c.1, d.Dy(), |tiles|, i))
    decreases i
  {
    if i > 0 {
      AheadSlides(tiles, c, d, i - 1);
      AheadSplit(tiles, c, d, i - 1, 1);
      assert Ahead(tiles, Ahead(tiles, c, d, i - 1), d, 1) == Neighbour(tiles, Ahead(tiles, c, d, i - 1), d);
    }
  }

  /** Where a coordinate stands after `i <= size` unit steps: it wraps at most once. */
  lemma {:induction false} SlideSteps(v: int, s: int, size: nat, i: nat)
    requires 0 <= v < size && -1 <= s <= 1 && i <= size
    ensures s == 0 ==> Slide(v, s, size, i) == v
    ensures s == 1 ==> Slide(v, s, size, i) == if v + i < size then v + i else v + i - size
    ensures s == -1 ==> Slide(v, s, size, i) == if v - i >= 0 then v - i else v - i + size
    decreases i
  {
    if i > 0 {
      SlideSteps(v, s, size, i - 1);
    }
  }

  /** After as many steps as its axis is long, a straight walk is back where it started. */
  function Period(tiles: seq<seq<TileState>>, d: Direction): (p: nat)
    requires Rectangular(tiles) && |tiles[0]| > 0
    ensures 0 < p <= Bound(tiles)
  {
    assert |tiles| * |tiles[0]| == |tiles| * (|tiles[0]| - 1) + |tiles|;
    assert |tiles| * |tiles[0]| == (|tiles| - 1) * |tiles[0]| + |tiles[0]|;
    if d == LEFT || d == RIGHT then |tiles[0]| else |tiles|
  }

  lemma WalkReturns(tiles: seq<seq<TileState>>, c: Cell, d: Direction)
    requires InGrid(tiles, c)
    ensures Ahead(tiles, c, d, Period(tiles, d)) == c
  {
    var p := Period(tiles, d);
    AheadSlides(tiles, c, d, p);
    if d == LEFT || d == RIGHT {
      SlideSteps(c.0, d.Dx(), |tiles[0]|, p);
      assert Slide(c.1, d.Dy(), |tiles|, p) == c.1 by {
        SlideSteps(c.1, 0, |tiles|, 0);
        SlideConstant(c.1, |tiles|, p);
      }
    } else {
      SlideSteps(c.1, d.Dy(), |tiles|, p);
      SlideConstant(c.0, |tiles[0]|, p);
    }
  }

  lemma {:induction false} SlideConstant(v: int, size: nat, i: nat)
    requires 0 <= v < size
    ensures Slide(v, 0, size, i) == v
    decreases i
  {
    if i > 0 {
      SlideConstant(v, size, i - 1);
    }
  }

  /**
   * The bound loses nothing: if the source's scan is still walking after as
   * many tiles as the grid has, it never stops, so the bounded scan differs
   * from the source only where the source does not terminate.
   */
  lemma BoundLosesNothing(tiles: seq<seq<TileState>>, walkable: TileState -> bool,
                          ghosts: seq<Entity>, c: Cell, d: Direction, fuel: nat)
    requires InGrid(tiles, c) && AllGhosts(ghosts)
    requires SourceRay(tiles, walkable, ghosts, c, d, Bound(tiles)).None?
    ensures SourceRay(tiles, walkable, ghosts, c, d, fuel).None?
  {
    SourceRayWalking(tiles, walkable, ghosts, c, d, Bound(tiles));
    forall i | 0 <= i < fuel
      ensures Clear(tiles, walkable, ghosts, Ahead(tiles, c, d, i))
    {
      AlwaysClear(tiles, walkable, ghosts, c, d, i);
    }
    SourceRayWalking(tiles, walkable, ghosts, c, d, fuel);
  }

  lemma {:induction false} AlwaysClear(tiles: seq<seq<TileState>>, walkable: TileState -> bool,
                                       ghosts: seq<Entity>, c: Cell, d: Direction, i: nat)
    requires InGrid(tiles, c)
    requires forall j :: 0 <= j < Bound(tiles) ==> Clear(tiles, walkable, ghosts, Ahead(tiles, c, d, j))
    ensures Clear(tiles, walkable, ghosts, Ahead(tiles, c, d, i))
    decreases i
  {
    var p := Period(tiles, d);
    if i >= Bound(tiles) {
      AheadSplit(tiles, c, d, p, i - p);
      WalkReturns(tiles, c, d);
      AlwaysClear(tiles, walkable, ghosts, c, d, i - p);
    }
  }

  /** The absolute directions addGhostInputs scans, in its order. */
  const ScanOrder: seq<Direction> := [UP, LEFT, RIGHT, DOWN]

  /** The (pathClear, frightenedGhostAhead) pair of each direction of ScanOrder, seen from `here`. */
  function GhostPairs(tiles: seq<seq<TileState>>, walkable: TileState -> bool, ghosts: seq<Entity>, here: Cell): seq<(bool, bool)>
    requires InGrid(tiles, here) && AllGhosts(ghosts)
  {
    seq(4, k requires 0 <= k < 4 =>
      Ray(tiles, walkable, ghosts, Neighbour(tiles, here, ScanOrder[k]), ScanOrder[k], Bound(tiles)))
  }

  /** No direction of the ghost inputs reads (false, true). */
  lemma GhostPairsNeverBlockedAndFrightened(tiles: seq<seq<TileState>>, walkable: TileState -> bool,
                                            ghosts: seq<Entity>, here: Cell)
    requires InGrid(tiles, here) && AllGhosts(ghosts)
    ensures var pairs := GhostPairs(tiles, walkable, ghosts, here);
            |pairs| == 4 && forall k :: 0 <= k < 4 ==> pairs[k] != (false, true)
  {
    forall k | 0 <= k < 4
      ensures GhostPairs(tiles, walkable, ghosts, here)[k] != (false, true)
    {
      RayNeverBlockedAndFrightened(tiles, walkable, ghosts, Neighbour(tiles, here, ScanOrder[k]), ScanOrder[k], Bound(tiles));
    }
  }

  /**
   * Scans one direction as the source does: start on the tile next to
   * `here`, look for the first ghost on each walkable tile, stop at a ghost
   * or a wall. The walk also stops after Bound(tiles) tiles, which the
   * source does not do.
   */
  method ScanDirection(tiles: seq<seq<TileState>>, walkable: TileState -> bool, ghosts: seq<Entity>,
                       here: Cell, dir: Direction) returns (pathClear: bool, frightenedGhostAhead: bool)
    requires InGrid(tiles, here) && AllGhosts(ghosts)
    ensures (pathClear, frightenedGhostAhead) ==
            Ray(tiles, walkable, ghosts, Neighbour(tiles, here, dir), dir, Bound(tiles))
  {
    pathClear, frightenedGhostAhead := true, false;
    ghost var start := Neighbour(tiles, here, dir);
    var tileAhead := NeighbourCell(tiles, here, dir);
    var bound := |tiles| * |tiles[0]|;
    var steps := 0;
    while steps < bound && walkable(tiles[tileAhead.1][tileAhead.0])
      invariant InGrid(tiles, tileAhead) && steps <= bound == Bound(tiles)
      invariant pathClear && !frightenedGhostAhead
      invariant Ray(tiles, walkable, ghosts, start, dir, bound) ==
                Ray(tiles, walkable, ghosts, tileAhead, dir, bound - steps)
      decreases bound - steps
    {
      var k := 0;
      while k < |ghosts|
        invariant k <= |ghosts| && pathClear && !frightenedGhostAhead
        invariant forall j :: 0 <= j < k ==> ghosts[j].position != tileAhead
      {
        if ghosts[k].position == tileAhead {
          if ghosts[k].frightened {
            frightenedGhostAhead := true;
          } else {
            pathClear := false;
          }
          break;
        }
        k := k + 1;
      }
      assert k == FirstOn(ghosts, tileAhead);
      if !pathClear || frightenedGhostAhead {
        break;
      }
      tileAhead := NeighbourCell(tiles, tileAhead, dir);
      steps := steps + 1;
    }
  }
}
