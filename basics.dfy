/** The two small types shared by the cache and the quoting: `unsigned
    char`, and an optional value. */
module Basics {

  /** `unsigned char`. */
  type Byte = b: int | 0 <= b < 256

  datatype Option<T> = None | Some(value: T)
}
