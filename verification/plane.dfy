/** Points and units of the canvas, shared by the label encoding and the
    grid helpers. */
module Plane {

  /** A point with integer coordinates: a canvas position or a grid cell. */
  datatype Pos = Pos(x: int, y: int)

  /** A unit: its id and position (velocity is part of the animation only). */
  datatype Unit = Unit(id: string, pos: Pos)
}
