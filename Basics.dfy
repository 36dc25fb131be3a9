/** The two wrappers the model's results are built from. */
module Basics {

  datatype Option<+T> = None | Some(value: T)

  /** The value of a step, or `Uncaught`: the step raised an exception that nothing
      in the program catches, so the program stops there. */
  datatype Result<+T> = Ok(value: T) | Uncaught
}
