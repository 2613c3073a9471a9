/** Failure-carrying result types shared by every module of the model. */
module Wrappers {

  /** A value that may be absent; stands for a nullable pointer of the source. */
  datatype Option<+T> = None | Some(value: T) {
    function GetOr(default: T): T {
      match this
      case Some(v) => v
      case None => default
    }
  }

  /** The outcome of a call that either returns normally or throws an exception. */
  datatype Outcome<+E> = Pass | Fail(error: E)

  /**
   * The result of a loop of the source that may never end: `Diverges` stands for a
   * run whose state repeats, so that the source loops forever.
   */
  datatype Run<+T> = Done(value: T) | Diverges
}
