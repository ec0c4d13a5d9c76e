/** Values shared by every part of the decay-index calculator: error kinds, results and
    the coordinate pairs the session records. */
module Basics {

  /** Every way an operation of the calculator can stop short. The first three are the
      places where numpy would hand back a non-finite decay index; the others are the
      exceptions (KeyError, AttributeError, IndexError, ValueError) the calculator raises when an
      operation runs before its prerequisite. */
  datatype Error =
    | LogOfNonPositiveField      // log of a horizontal field strength <= 0
    | LogOfNonPositiveHeight     // log of a height <= 0
    | ZeroLogHeightStep          // two consecutive log-heights are equal
    | HeightIndexOutOfRange      // a selected height has no decay-index layer
    | NonFinitePixel             // the click maps to no finite pixel (math.floor(nan))
    | CropNotSet                 // no crop corners yet (preplot or loadlog never ran)
    | VolumeNotComputed          // no decay-index volume yet
    | MissingThreshold           // no threshold height was ever given
    | NoHeightBelowThreshold     // no height lies at or below the threshold
    | MissingCoords              // the log holds no coordinate list
    | MissingKeyDi               // the log holds no critical decay-index value
    | MissingCropArea            // the log holds no crop geometry
    | EmptyPopulation            // statistics over no profile at all
    | RaggedPopulation           // profiles of different lengths

  datatype Option<+T> = None | Some(value: T)

  datatype Result<+T> = Success(value: T) | Failure(error: Error)

  /** Completion of an operation that yields no value. */
  datatype Outcome = Pass | Fail(error: Error)

  /** A world coordinate on the displayed image, in arcseconds (Tx, Ty). */
  datatype Coord = Coord(tx: real, ty: real)

  /** A fractional pixel position on the decay-index volume's horizontal grid. A click
      off the solar disk has none: its transformed coordinate is NaN, which the model
      represents as None wherever a pixel is looked up. */
  datatype Pixel = Pixel(x: real, y: real)
}
