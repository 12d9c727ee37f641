/** Failure-compatible result types shared by the whole model.

    The modelled code signals failure by raising Python exceptions; `Exception`
    names the ones the core can raise, and `Result` carries either a value or
    the exception that ended the computation. */
module Wrappers {

  datatype Option<+T> = None | Some(value: T)

  /** The Python exceptions the modelled operations can raise. */
  datatype Exception =
    | AssertionError     // `assert len(fltr) > 0` in the activity filter
    | TypeError          // a filter reads a field the record does not have
    | KeyError           // a dict lookup of a missing key
    | IndexError         // `[...][0]` on an empty list, `split(...)[3]` on a short one
    | ZeroDivisionError  // normalising amounts whose total is zero
    | NoResults          // `ws.get_one` found nothing
    | MultipleResults    // `ws.get_one` found more than one dataset
    | UnboundLocalError  // a local variable read before any assignment

  datatype Result<+T> = Success(value: T) | Failure(error: Exception) {

    predicate IsFailure() {
      Failure?
    }

    function PropagateFailure<U>(): Result<U>
      requires Failure?
    {
      Failure(error)
    }

    function Extract(): T
      requires Success?
    {
      value
    }
  }
}
