/** What several parts share: optional values, and the number of values of `uint16_t`. */
module Wrappers {
  const UINT16_RANGE := 0x1_0000

  datatype Option<+T> = None | Some(value: T)
}
