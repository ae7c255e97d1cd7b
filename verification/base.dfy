/** Shared vocabulary of the keychain model: optional values, results,
    bytes, and the exceptions that can escape a keychain call. */
module Base {

  /** Java's nullable reference: None stands for `null`. */
  datatype Option<+T> = None | Some(value: T)

  /** A call either returns a value or throws. */
  datatype Result<+T, +E> = Success(value: T) | Failure(error: E)

  newtype byte = x: int | 0 <= x < 256

  type Bytes = seq<byte>

  /** The exceptions a keychain call lets escape to its caller. */
  datatype Exception =
    | ReservedKey(key: string)   // a user accessor named a key reserved for metadata
    | ClassCast(key: string)     // the preference store holds a value of another type under the key
    | BadBase64(text: string)    // the Base64 decoder rejected the text (bad padding)
}
