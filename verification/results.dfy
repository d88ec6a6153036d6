/** Failure-compatible result type standing in for the Java exceptions the
    codec can raise, and an option type standing in for `null`. */
module Results {

  /** The unchecked Java exceptions the codec can throw on malformed input. */
  datatype Fault =
    | IndexOutOfBounds   // ArrayIndexOutOfBoundsException: `bytes[k]` past the end, or `copyOfRange` with `from > length`
    | IllegalArgument    // IllegalArgumentException: `copyOfRange` with `from > to`
    | BufferOverflow     // BufferOverflowException: `ByteBuffer.put` past the preset size
    | NullPointer        // NullPointerException: serialising a payload whose device is null

  /** Either a value or the exception that aborted the computation. */
  datatype Result<+T> = Ok(value: T) | Fail(fault: Fault) {

    predicate IsFailure() {
      Fail?
    }

    function PropagateFailure<U>(): Result<U>
      requires Fail?
    {
      Fail(fault)
    }

    function Extract(): T
      requires Ok?
    {
      value
    }
  }

  /** `None` plays the role of a Java `null` reference. */
  datatype Option<+T> = None | Some(value: T)
}
