/** Failure-carrying results shared by every component of the metadata decoder.
    Each exception the decoder can raise becomes one constructor of Error. */
module Wrappers {

  datatype Option<+T> = None | Some(value: T)

  /** The decoder's failure outcomes, one per error the decoder raises. */
  datatype Error =
    | InvalidExifSegment     // TIFF blob shorter than its 8-byte header
    | UnknownEndianness      // byte-order mark is neither "II" nor "MM"
    | OffsetOutOfRange       // a 16- or 32-bit read runs past the blob
    | IfdOffsetOutOfRange    // an IFD offset at or past the blob end
    | UnsupportedType        // TIFF field type without a known size
    | ValueOffsetOutOfRange  // out-of-line value runs past the blob
    | NotIndexable           // indexing an empty tuple, or comparing a tuple with an int
    | UnpackFailed           // a GPS coordinate item that is not a (numerator, denominator) pair
    | NotJpeg                // missing Start-Of-Image marker
    | NotPng                 // missing PNG signature
    | InvalidPngHeader       // first chunk is not a 13-byte IHDR
    | DimensionsNotFound     // JPEG stream ended without a usable Start-Of-Frame
    | NegativeReadLength     // a stream read of a length below -1
    | InvalidSeek            // a relative seek before the start of the stream
    | UnsupportedFormat      // file suffix is neither JPEG nor PNG

  datatype Result<+T> = Ok(value: T) | Err(error: Error) {
    predicate IsFailure() { Err? }

    function PropagateFailure<U>(): Result<U>
      requires Err?
    {
      Err(error)
    }

    function Extract(): T
      requires Ok?
    {
      value
    }
  }
}
