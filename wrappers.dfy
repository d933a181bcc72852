/** Outcome types shared by the registry and the route planner. */
module Wrappers {

  /** An absent or present value: a search that finds no route yields `None`. */
  datatype Option<T> = None | Some(value: T)

  /** The result of an operation that looks stations up by id: `NotFound`
      stands for the error raised when an id is not registered. */
  datatype Result<T> = Ok(value: T) | NotFound
}
