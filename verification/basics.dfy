/** Shared vocabulary: the byte type of the audio stream and a result type
    standing in for a Python call that either returns or raises. */
module Basics {

  /** One byte of a binary WebSocket frame. */
  newtype byte = b: int | 0 <= b < 256

  /** `Ok(value)` is a normal return; `Err(error)` is a raised exception. */
  datatype Result<+T, +E> = Ok(value: T) | Err(error: E)
}
