/** Option and Result values, and the failures the session can raise. */
module Wrappers {

  datatype Option<T> = None | Some(value: T) {
    /** `x || default` in Ruby: the value, or the default when nil. */
    function GetOr(default: T): T {
      match this
      case Some(v) => v
      case None => default
    }
  }

  /** The exceptions togit.rb raises (or lets Ruby raise) on bad input. */
  datatype Error =
    | DuplicateBranch(name: string)   // RuntimeError "creating existant branch"
    | InvalidGitOutput                // RuntimeError "Invalid output from git"
    | RegexpNotMatched(ref: string)   // IndexError from `branch[/^.*\//] = ""`
    | NilRefName                      // NoMethodError on a missing for-each-ref field
    | CharOutOfRange(code: nat)       // RangeError from Integer#chr

  datatype Result<T> = Success(value: T) | Failure(error: Error)
}
