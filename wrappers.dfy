/** Option and Result values, and the Python exceptions of the modelled code as error values. */
module Wrappers {

  datatype Option<+T> = None | Some(value: T)

  /** The exceptions the modelled Python code can raise. */
  datatype Error =
    | IndexError              // `list(set())[0]` on an empty group
    | MissingKey(key: string) // KeyError for a string key of a dict
    | MissingRank(rank: nat)  // KeyError for an integer key (a rank) of a dict
    | ValueError              // word error rate over a corpus without reference tokens

  datatype Result<+T> = Ok(value: T) | Err(error: Error) {
    predicate IsFailure() {
      Err?
    }

    function PropagateFailure<U>(): Result<U>
      requires Err?
    {
      Err(error)
    }

    function Extract(): T
      requires Ok?
    {
      value
    }
  }
}
