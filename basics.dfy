/** Shared value wrappers and the exceptions the profiler can raise. */
module Basics {

  datatype Option<+T> = None | Some(value: T)

  datatype Result<+T, +E> = Ok(value: T) | Err(error: E)

  /** The Python exceptions that end an analyzer (or the loader) early. The `column` of the
      first two records the column at which the exception is raised; Python's own messages
      name no column. */
  datatype Fault =
    | ZeroDivisionError(column: string)  // null percentage of a column on a frame with no rows
    | TypeError(column: string)          // `:.2f` applied to the None that max/min give for a column without values
    | ValueError(message: string)        // `.item()` on an empty frame, or an unsupported file suffix
}
