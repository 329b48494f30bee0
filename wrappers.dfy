/** Optional values and results with the failures the pipeline can raise. */
module Wrappers {

  datatype Option<+T> = None | Some(value: T)

  /** The runtime errors of the annotation pipeline, each a Python exception in the source. */
  datatype Failure =
    | MissingTimestamp     // a `(None, None)` sample reaches frame arithmetic (TypeError)
    | NegativeSteps        // `numpy.linspace` asked for a negative number of samples (ValueError)
    | NoFrames             // `frames[0]` of an annotation without frames (IndexError)
    | ZeroFrameRate        // `frame_number / frame_rate` with a frame rate of 0 (ZeroDivisionError)
    | NoAnnotationResults  // `annotationResults[0]` of an empty result list (IndexError)

  datatype Result<+T> = Ok(value: T) | Err(error: Failure)
}
