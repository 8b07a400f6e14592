/** What several modules share: optional values and the largest 64-bit number. */
module Wrappers {
  datatype Option<T> = None | Some(value: T)

  const U64_MAX: nat := 0xFFFF_FFFF_FFFF_FFFF
}
