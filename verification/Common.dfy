/** Small datatypes shared by the other modules. */
module Common {

  datatype Option<+T> = None | Some(value: T) {
    predicate IsFailure() {
      None?
    }

    function PropagateFailure<U>(): Option<U>
      requires None?
    {
      None
    }

    function Extract(): T
      requires Some?
    {
      value
    }
  }

  /** The status codes FOREST_OK and FOREST_ERR. */
  datatype Status = Ok | Err

  /** One byte of memory. */
  type byte = x: int | 0 <= x < 256

  type Bytes = seq<byte>
}
