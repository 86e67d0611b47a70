/** Optional values. `None` stands for the point where the Rust program
    panics (an `unwrap` on a missing value, `unreachable!`, a modulo by
    zero, a zero `step_by`): the program produces no answer there. */
module Wrappers {

  datatype Option<+T> = None | Some(value: T)

}
