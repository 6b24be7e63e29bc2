/** Small shared vocabulary: an optional value and bytes. */
module Wrappers {

  /** `None` stands for "no value", or for a panic the source would raise. */
  datatype Option<+T> = None | Some(value: T)

  /** A byte of a Rust `String`/`OsString` (UTF-8 or raw bytes). */
  newtype byte = x: int | 0 <= x < 256

  function Min(a: int, b: int): int { if a <= b then a else b }
  function Max(a: int, b: int): int { if a <= b then b else a }
}
