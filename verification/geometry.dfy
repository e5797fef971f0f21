/**
 * Integer grid cells and the direction vectors between them. Tiles sit at
 * whole-number positions, so the game's float vectors are modelled exactly
 * by integers here.
 */
module Geometry {

  datatype Cell = Cell(x: int, y: int)

  datatype Vec = Vec(dx: int, dy: int)

  const Zero: Vec := Vec(0, 0)
  const Up: Vec := Vec(0, 1)
  const Down: Vec := Vec(0, -1)
  const Left: Vec := Vec(-1, 0)
  const Right: Vec := Vec(1, 0)

  /** The four cardinal unit vectors, in the game's priority order. */
  const Cardinals: seq<Vec> := [Up, Down, Left, Right]

  function Offset(c: Cell, v: Vec): Cell
  {
    Cell(c.x + v.dx, c.y + v.dy)
  }

  /** The vector from `b` to `a` (`a.Position - b.Position`). */
  function Diff(a: Cell, b: Cell): Vec
  {
    Vec(a.x - b.x, a.y - b.y)
  }

  predicate IsCardinal(v: Vec)
  {
    v in Cardinals
  }

  /** `b` lies one cardinal step away from `a`. */
  predicate Adjacent(a: Cell, b: Cell)
  {
    IsCardinal(Diff(b, a))
  }

  lemma AdjacentSymmetric(a: Cell, b: Cell)
    ensures Adjacent(a, b) <==> Adjacent(b, a)
  {
  }

  lemma OffsetDiff(c: Cell, v: Vec)
    ensures Diff(Offset(c, v), c) == v
    ensures IsCardinal(v) ==> Adjacent(c, Offset(c, v))
  {
  }

  function Sign(n: int): (r: int)
    ensures r == -1 || r == 0 || r == 1
    ensures (r > 0 <==> n > 0) && (r < 0 <==> n < 0)
  {
    if n > 0 then 1 else if n < 0 then -1 else 0
  }

  /**
   * `Vector2.normalized` on an integer vector. A vector along one axis
   * becomes the unit vector pointing the same way. Any other vector has no
   * component equal to plus or minus one once normalized, and shape
   * inference reads nothing else, so it is modelled as Zero.
   */
  function Normalize(v: Vec): (r: Vec)
    ensures r == Zero || IsCardinal(r)
    ensures v.dx == 0 ==> r.dy * v.dy >= 0 && (v.dy != 0 ==> r.dy != 0 && r.dx == 0)
    ensures v.dy == 0 ==> r.dx * v.dx >= 0 && (v.dx != 0 ==> r.dx != 0 && r.dy == 0)
    ensures IsCardinal(v) ==> r == v
  {
    if v.dx == 0 && v.dy != 0 then Vec(0, Sign(v.dy))
    else if v.dy == 0 && v.dx != 0 then Vec(Sign(v.dx), 0)
    else Zero
  }
}
