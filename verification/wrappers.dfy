/** Failure-compatible wrappers shared by every module of the model.

  `Result` carries either a value or the exception the modelled Python or
  JavaScript code would raise at that point; it works with `:-` so that an
  exception propagates out of every caller, as it does in the source.
 */
module Wrappers {

  /** The conventional Some/None datatype. */
  datatype Option<+T> = None | Some(value: T)

  /** The exceptions that can escape from the modelled code.
      - IndexError: `.pop()` on an empty list.
      - KeyError: a dictionary lookup of a missing key.
      - ValueError: unpacking a split into the wrong number of parts.
      - StopIteration: `next()` on an exhausted generator.
      - RecursionError: the call depth allowed to the model is used up. */
  datatype Raised = IndexError | KeyError | ValueError | StopIteration | RecursionError

  /** Either a value or the exception that ends the computation. */
  datatype Result<+T> = Ok(value: T) | Err(error: Raised) {

    predicate IsFailure() {
      Err?
    }

    function PropagateFailure<U>(): Result<U>
      requires Err?
    {
      Err(error)
    }

    function Extract(): T
      requires Ok?
    {
      value
    }
  }

  /** The last element of a non-empty sequence: what Python's `list.pop()`
      and JavaScript's `Array.prototype.pop()` return. */
  function Last<T>(s: seq<T>): T
    requires |s| > 0
  {
    s[|s| - 1]
  }
}
