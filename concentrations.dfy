/** The value carried by one grid cell: the concentrations of the two
    species, `{a, b}` in the source. */
module Concentrations {

  datatype CellState = CellState(a: real, b: real)

  /** The property name `key` passed to `diffusion`: 'a' or 'b'. */
  datatype Key = A | B

  /** `cell[key]`. */
  function Get(c: CellState, key: Key): real
  {
    match key
    case A => c.a
    case B => c.b
  }

  /** `{a: 1, b: 0}`: the state every non-seeded cell starts in. */
  const Rest := CellState(1.0, 0.0)

  /** `{a: 1, b: 1}`: the state of the border ring and of the seed block. */
  const Saturated := CellState(1.0, 1.0)
}
