/** Failure-carrying values shared by every component of the codec. */
module Common {

  datatype Option<T> = None | Some(value: T) {
    function GetOr(default: T): T {
      match this
      case Some(v) => v
      case None => default
    }
  }

  /** The exceptions the codec throws, one constructor per distinct cause. */
  datatype Error =
    | TypeError                          // a property read on `undefined`
    | NoHiddenData                       // the separator marker is absent
    | InvalidFormat                      // splitting on the marker gave fewer than two parts
    | MalformedPayload                   // the hidden text does not parse back into a payload
    | InvalidCharacter                   // `btoa` met a character above 0xFF
    | ImageTooSmall(needed: int, available: int)
    | InvalidLength(length: int)         // the raster length header is 0 or above the ceiling
    | IncompleteExtraction               // the raster payload runs past the pixel buffer

  datatype Result<T> = Ok(value: T) | Err(error: Error)
}
