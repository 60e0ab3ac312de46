/** Option and Result, with the failures the analysis can run into. */
module Wrappers {

  datatype Option<T> = None | Some(value: T)

  /** Each failure stands for an exception numpy raises on the operation. */
  datatype Error =
    | ShapeMismatch            // two rasters of different shape combined cell by cell
    | MissingBand(band: nat)   // a band index beyond the image's last band

  datatype Result<T> = Ok(value: T) | Err(error: Error)
}
