/** Failure-carrying values: every command of the repository either yields a
    new state or one of the error messages the command prints and stops on. */
module Wrappers {

  /** A value that may be missing; stands for a Java reference that may be null. */
  datatype Option<+T> = None | Some(value: T)

  /** The outcome of a command: a value, or the error that stopped it. */
  datatype Result<+T, +E> = Ok(value: T) | Err(error: E)
}
