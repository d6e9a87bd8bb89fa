/** Nullable values of the source (`T?` in Kotlin) and the outcome of a call that may throw. */
module Wrappers {

  /** A Kotlin nullable: `None` stands for `null`. */
  datatype Option<+T> = None | Some(value: T)

  /** The outcome of calling a collaborator that may throw an exception. */
  datatype Outcome<+T> = Returned(value: T) | Threw
}
