/** The result of a computation that may stop with a Rust panic
    (a failed `unwrap`, an index out of bounds, an explicit `panic!`). */
module Outcomes {

  datatype Outcome<+T> = Done(value: T) | Panic

  datatype Option<+T> = None | Some(value: T)
}
