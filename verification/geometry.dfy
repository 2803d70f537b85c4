/** Plane geometry used by the simulation: Siv3D's `Vec2`, of which the game only
    ever adds offsets. Coordinates are modelled as exact reals. */
module Geometry {

  /** A point or offset in window coordinates (x to the right, y downwards). */
  datatype Vec2 = Vec2(x: real, y: real)

  /** Translates `v` by `(dx, dy)`, as `Vec2::moveBy` does. */
  function MoveBy(v: Vec2, dx: real, dy: real): Vec2
  {
    Vec2(v.x + dx, v.y + dy)
  }
}
