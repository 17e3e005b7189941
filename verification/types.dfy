/** Small shared vocabulary: optional values, results, and the fixed-width
    integers the program exchanges with the mail server. */
module Types {

  /** A value that may be absent (a nil pointer, a nil error, a missing field). */
  datatype Option<+T> = None | Some(value: T)

  /** The `(value, error)` pair of a fallible call, with exactly one side present. */
  datatype Result<+T, +E> = Ok(value: T) | Err(error: E)

  /** An IMAP message UID, a 32-bit unsigned integer on the wire. */
  newtype Uid = x: int | 0 <= x < 0x1_0000_0000

  newtype Byte = x: int | 0 <= x < 0x100

  type Bytes = seq<Byte>

  /** `b` is `a` followed by zero or more further elements. */
  predicate Extends<T(==)>(a: seq<T>, b: seq<T>) {
    |a| <= |b| && b[..|a|] == a
  }
}
