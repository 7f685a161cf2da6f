/** The outcome of an operation that returns `io::Result`. */
module Results {
  datatype ErrorKind = InvalidData | InvalidInput | UnexpectedEof | WouldBlock | Other

  datatype Result<+T> = Ok(value: T) | Err(kind: ErrorKind) {
    predicate IsFailure() {
      Err?
    }

    function PropagateFailure<U>(): Result<U>
      requires Err?
    {
      Err(kind)
    }

    function Extract(): T
      requires Ok?
    {
      value
    }
  }

  datatype Option<+T> = None | Some(value: T)
}
