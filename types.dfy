/** The value types of sim/types.ts that the simulator uses. */
module Types {
  import opened Geometry

  type Label = string

  /** A `SimLocation`; `name` is its `label`. */
  datatype Location = Location(name: Label, x: real, y: real) {
    function Coords(): Point {
      Point(x, y)
    }
  }
}
