/** Machine integers as ranges of `nat`, and optional values. */
module Basics {

  const TWO_TO_32: int := 0x1_0000_0000
  const TWO_TO_64: int := 0x1_0000_0000_0000_0000

  type U32 = n: nat | n < TWO_TO_32
  type U64 = n: nat | n < TWO_TO_64

  datatype Option<T> = None | Some(value: T)
}
