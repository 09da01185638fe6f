/** An optional value: `None` stands for the solvers' `None` results. */
module Wrappers {

  datatype Option<+T> = None | Some(value: T)
}
