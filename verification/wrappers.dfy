/** Failure-carrying wrapper used where the game can come up short: a finite
    random stream that runs out, or a sprite lookup that throws. */
module Wrappers {

  /** A value, or its absence when the computation came up short. */
  datatype Option<+T> = None | Some(value: T)
}
