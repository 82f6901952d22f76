/** Small shared vocabulary: an optional value and raw file contents. */
module Prelude {

  /** A value that may be absent (JavaScript `null`/`undefined` or a thrown lookup). */
  datatype Option<+T> = None | Some(value: T)

  /** The contents of a file, as bytes. */
  type Bytes = seq<bv8>
}
