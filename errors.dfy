/** The exceptions the modelled code raises, as values: every operation that can throw returns a
    `Result` or an `Outcome` instead. */
module Errors {

  datatype Error =
    | IndexOutOfBounds            // an array/list index outside its bounds (Kotlin) or IndexError (Python)
    | IllegalArgument             // Kotlin `require` failures, e.g. `take` with a negative count
    | NullPointer                 // `!!` applied to null (a frame grabber with no image left)
    | InvalidAlignmentElement     // Gotoh's traceback reaching an origin it has no rule for
    | Stopped                     // DifferenceGeneratorStoppedException
    | Codec(reference: bool)      // DifferenceGeneratorCodecException, for the reference or the current video
    | Dimension                   // DifferenceGeneratorDimensionException
    | PercentageOutOfRange        // the Exception thrown by FrameNavigation.jumpToPercentage
    | RecorderNotInitialized      // the RuntimeException thrown by VideoGeneratorImpl.save
    | ClassCast                   // ClassCastException from an `as ArrayList` cast

  /** The value of a call that returns normally, or the exception it throws. */
  datatype Result<T> = Ok(value: T) | Err(error: Error)

  /** The outcome of a call that returns nothing. */
  datatype Outcome = Pass | Fail(error: Error)
}
