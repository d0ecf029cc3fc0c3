/** Optional values. */
module Wrappers {

  /** An argument that may be absent: the optional predecessor block that
      `is_block_valid` of b_s.py takes, `None` when no predecessor is given. */
  datatype Option<+T> = None | Some(value: T)
}
