/** Values shared by the target and the resource registry: nullable references,
    results of operations that can throw, the exceptions the core raises, bytes. */
module Common {

  /** A .NET reference that may be null. */
  datatype Option<+T> = None | Some(value: T)

  /** The outcome of a call that either returns a value or throws. */
  datatype Result<+T, +E> = Ok(value: T) | Err(error: E)

  /** The exceptions the modelled code can raise. */
  datatype Exception =
    | NullReference          // a member access or a foreach on a null reference
    | IndexOutOfRange        // kv[1] on a split with a single part
    | DuplicateKey(key: string)  // Dictionary.Add with a key already present (ArgumentException)
    | ArgumentNull           // a Dictionary lookup or Add with a null key
    | Foreign(code: nat)     // raised by the Pub/Sub client library or the transport

  newtype byte = b: int | 0 <= b < 256

  /** The contents of a protobuf ByteString. */
  type Bytes = seq<byte>

  /** string.IsNullOrEmpty */
  predicate IsNullOrEmpty(s: Option<string>) {
    s.None? || s.value == ""
  }
}
