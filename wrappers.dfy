/** Optional values, results and the error kinds the services raise. */
module Wrappers {

  datatype Option<+T> = None | Some(value: T)

  /** The exceptions the services throw, as values. */
  datatype Error =
    | ArgumentException(message: string)  // every validation failure of the services
    | IndexOutOfRange                     // a list indexer used with an index past its end
    | InputExhausted                      // a prompt loop ran out of scripted console responses
    | FileNotFound                        // the input file named on the command line does not exist

  datatype Result<+T> = Ok(value: T) | Err(error: Error) {
    predicate IsFailure() { Err? }

    function PropagateFailure<U>(): Result<U>
      requires Err?
    {
      Err(error)
    }

    function Extract(): T
      requires Ok?
    {
      value
    }
  }
}
