/** Failure-carrying datatypes shared by the steganography modules. */
module Results {

  /** A value that may be absent; used for a search that can come up empty. */
  datatype Option<+T> = None | Some(value: T)

  /** Either a value or the reason the source would have refused or crashed. */
  datatype Result<+T, +E> = Success(value: T) | Failure(error: E)

  /** The two ways the core can fail: binary_to_string indexing past the end of
      a bit list whose length is not a multiple of 8, and a message holding a
      character whose code point is 256 or more. */
  datatype Error = IndexError | UnencodableCharacter
}
