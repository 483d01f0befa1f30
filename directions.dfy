/**
 * The game's four absolute directions and the turns the agent reasons with.
 * Direction.java is not part of this model; its declaration order and its
 * unit vectors are assumptions of this model (UP is +y, RIGHT is +x).
 */
module Directions {

  datatype Direction = UP | DOWN | LEFT | RIGHT
  {
    function Dx(): (dx: int)
      ensures -1 <= dx <= 1 && (dx != 0 <==> this == LEFT || this == RIGHT)
    {
      match this
      case LEFT => -1
      case RIGHT => 1
      case _ => 0
    }

    function Dy(): (dy: int)
      ensures -1 <= dy <= 1 && (dy != 0 <==> this == UP || this == DOWN)
    {
      match this
      case UP => 1
      case DOWN => -1
      case _ => 0
    }

    /** A quarter turn counter-clockwise. */
    function Left(): (d: Direction)
      ensures d != this && d.Dx() == -Dy() && d.Dy() == Dx()
    {
      match this
      case UP => LEFT
      case LEFT => DOWN
      case DOWN => RIGHT
      case RIGHT => UP
    }

    /** A quarter turn clockwise, the inverse of Left. */
    function Right(): (d: Direction)
      ensures d != this && d.Left() == this && d.Dx() == Dy() && d.Dy() == -Dx()
    {
      match this
      case UP => RIGHT
      case RIGHT => DOWN
      case DOWN => LEFT
      case LEFT => UP
    }

    /** The opposite direction. */
    function Behind(): (d: Direction)
      ensures d != this && d.Dx() == -Dx() && d.Dy() == -Dy()
    {
      match this
      case UP => DOWN
      case DOWN => UP
      case LEFT => RIGHT
      case RIGHT => LEFT
    }
  }

  /** Direction.values(): the order in which a search expands a cell's neighbours. */
  const Values: seq<Direction> := [UP, DOWN, LEFT, RIGHT]

  /** The agent-relative slots [forward, left, right, behind] seen from `facing`. */
  function Relative(facing: Direction, i: nat): Direction
    requires i < 4
  {
    [facing, facing.Left(), facing.Right(), facing.Behind()][i]
  }

  /** Every absolute direction occupies exactly one agent-relative slot. */
  function SlotOf(facing: Direction, d: Direction): (i: nat)
    ensures i < 4 && Relative(facing, i) == d
    ensures forall j :: 0 <= j < 4 && Relative(facing, j) == d ==> j == i
  {
    if d == facing then 0
    else if d == facing.Left() then 1
    else if d == facing.Right() then 2
    else 3
  }
}
