/** The exceptions the KLV codec primitives raise, and a failure-compatible
    result type that carries either a value or one of them. */
module Results {

  /** The Python exception classes the primitives can raise.
      - OverflowError: `int.to_bytes` cannot represent the value in the width.
      - ValueError: a negative width, a malformed BER length field, or a
        string `bytes.fromhex` rejects.
      - StructError: `struct.unpack` is given a negative repeat count. */
  datatype Error = OverflowError | ValueError | StructError

  /** Either the value an operation returns or the exception it raises. */
  datatype Result<+T> = Ok(value: T) | Fail(error: Error) {

    predicate IsFailure() {
      Fail?
    }

    function PropagateFailure<U>(): Result<U>
      requires Fail?
    {
      Fail(error)
    }

    function Extract(): T
      requires Ok?
    {
      value
    }
  }
}
