/** The types that all components share. */
module Basics {
  /** One `uint8_t`. */
  type byte = x: int | 0 <= x < 256

  datatype Option<T> = None | Some(value: T)
}
