/** Board geometry of the Snake game: the fixed screen and block sizes, grid
    cells, the four headings and the one-cell move each heading makes. */
module Geometry {

  const ScreenWidth: int := 400
  const ScreenHeight: int := 400
  const BlockLength: int := 20
  /** Number of grid cells across and down (20 x 20). */
  const UnitsX: int := ScreenWidth / BlockLength
  const UnitsY: int := ScreenHeight / BlockLength

  /** One grid cell, addressed by column `x` and row `y`; `y` grows downwards. */
  datatype Vec2D = Vec2D(x: int, y: int)

  /** The snake's heading. */
  datatype Direction = Right | Up | Left | Down

  /** The cell lies on the board `[0, UnitsX) x [0, UnitsY)`. */
  predicate InBounds(p: Vec2D) {
    0 <= p.x < UnitsX && 0 <= p.y < UnitsY
  }

  /** The two cells share a side. */
  predicate Adjacent(p: Vec2D, q: Vec2D) {
    || (p.y == q.y && (q.x == p.x + 1 || q.x == p.x - 1))
    || (p.x == q.x && (q.y == p.y + 1 || q.y == p.y - 1))
  }

  /** The heading that points back the way `d` came. */
  function Opposite(d: Direction): (r: Direction)
    ensures r != d
    ensures Move(Move(Vec2D(0, 0), d), r) == Vec2D(0, 0)
  {
    match d
    case Right => Left
    case Up => Down
    case Left => Right
    case Down => Up
  }

  /** The cell one step from `p` in direction `d`. */
  function Move(p: Vec2D, d: Direction): (q: Vec2D)
    ensures Adjacent(p, q)
    ensures q.y == p.y <==> d == Right || d == Left
    ensures q.x > p.x <==> d == Right
    ensures q.x < p.x <==> d == Left
    ensures q.y < p.y <==> d == Up
    ensures q.y > p.y <==> d == Down
  {
    match d
    case Right => Vec2D(p.x + 1, p.y)
    case Up => Vec2D(p.x, p.y - 1)
    case Left => Vec2D(p.x - 1, p.y)
    case Down => Vec2D(p.x, p.y + 1)
  }

  /** Stepping in a direction and then in its opposite returns to the start. */
  lemma MoveThenOppositeReturns(p: Vec2D, d: Direction)
    ensures Move(Move(p, d), Opposite(d)) == p
  {
  }

  /** Opposite is its own inverse. */
  lemma OppositeInvolutive(d: Direction)
    ensures Opposite(Opposite(d)) == d
  {
  }

  /** Distinct headings lead to distinct cells. */
  lemma MoveInjective(p: Vec2D, d: Direction, e: Direction)
    ensures Move(p, d) == Move(p, e) <==> d == e
  {
  }
}
