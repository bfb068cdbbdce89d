/** Failure-carrying return values shared by the simulation modules. */
module Results {

  /** A value that may be absent (a dictionary entry such as the elevation array). */
  datatype Option<+T> = None | Some(value: T)

  /** The ways in which the modelled operations can fail. */
  datatype Error =
    | EmptyCalendar        // the realisation's datetime series has no month to index
    | BlockSizeExhausted   // halving reached a block of zero years
    | Misaligned           // catchment point ordering differs from the grid's
    | ZeroTotalWeight      // a catchment average with weights summing to zero
    | MissingLabel         // a month looked up by a row label the sliced table lacks
    | MaskLengthMismatch   // a boolean mask applied to an array of another length
    | MissingPhi           // a season's grid phi read before it was ever computed

  /** Either the computed value or the error that stopped the computation. */
  datatype Result<+T> = Success(value: T) | Failure(error: Error)
}
