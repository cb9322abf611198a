/** Failure values for the operations of the layout engine. Each error
    stands for an exception the Python code would raise on that input. */
module Results {

  datatype Error =
    | EmptyCollage     // np.min over an empty array of shapes
    | DivisionByZero   // a scale factor or an aspect ratio with a zero denominator
    | ZeroStep         // range() called with a zero step while cropping a grid
    | NotAnImage       // a list of tiles used where an image is expected
    | NoDot            // False (a name without '.') concatenated with a string
    | EmptyResize      // PIL's resize asked for a side of zero pixels

  datatype Option<+T> = None | Some(value: T)

  datatype Result<+T> = Ok(value: T) | Err(error: Error) {
    predicate IsFailure() { Err? }

    function PropagateFailure<U>(): Result<U>
      requires Err?
    {
      Err(error)
    }

    function Extract(): T
      requires Ok?
    {
      value
    }
  }
}
