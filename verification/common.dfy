/** Byte sequences and the success/failure carriers shared by every other module. */
module Common {

  /** One element of a `Uint8Array`. */
  type Byte = x: int | 0 <= x < 256

  type Bytes = seq<Byte>

  datatype Option<+T> = None | Some(value: T)

  /** The outcome of an operation that throws in the source: `Failure` stands for the exception. */
  datatype Result<+T, +E> = Success(value: T) | Failure(error: E)
}
