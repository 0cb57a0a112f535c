/** Error plumbing shared by the codec and the message buffer. */
module Wrappers {

  /** The only `std::io::Error` the byte reader can raise: the slice ran out. */
  datatype IoError = UnexpectedEof

  /** `Result<T, std::io::Error>`, usable with `:-`. */
  datatype Result<+T> = Ok(value: T) | Err(error: IoError) {
    predicate IsFailure() {
      Err?
    }

    function PropagateFailure<U>(): Result<U>
      requires Err?
    {
      Err(error)
    }

    function Extract(): T
      requires Ok?
    {
      value
    }
  }
}
