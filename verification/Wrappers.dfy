module Wrappers {
  datatype Option<+T> = None | Some(value: T)

  /** 2^53: a float64 holds every whole number up to here, and adds exactly up to here. */
  const MAX_EXACT: int := 0x20_0000_0000_0000
}
