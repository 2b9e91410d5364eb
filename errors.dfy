/** The ways the COOP computation can fail, and the result type that carries them. */
module Errors {

  datatype Error =
      /** An element label matched no atom: `element_index[0]` raises IndexError. */
    | EmptySelection(element: string)
      /** The matched atoms of one element carry different numbers of spherical
          functions: the ragged list fails in `np.reshape` (numpy 1.24 and later), or
          else as an object-array index into the overlap matrix. */
    | MixedOrbitalCounts(element: string)
      /** An orbital index lies beyond an axis of the overlap or coefficient matrix (IndexError). */
    | IndexOutOfRange
      /** `np.apply_along_axis` over a coefficient matrix with no columns (ValueError). */
    | NoEnergyLevels
      /** The energy vector and the COOP vector differ in length, so the table columns cannot be filled. */
    | LengthMismatch

  datatype Result<T> = Ok(value: T) | Err(error: Error)
}
