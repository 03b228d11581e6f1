/** Failure-compatible result values shared by every module of the model.

    The scripts signal malformed input by raising Python exceptions that abort
    the whole call; here each such exception is an `Err` carrying an `Error`
    that names the exception's cause. */
module Results {

  datatype Option<+T> = None | Some(value: T)

  /** Which axis of a contact dump a diagnostic is about. */
  datatype Axis = Rows | Columns

  datatype Error =
      /** `row[field]` read past the end of a row (Python `IndexError`). */
    | MissingField(row: nat, field: nat)
      /** `int(...)` or `float(...)` rejected the text of a field (`ValueError`). */
    | NotANumber(row: nat, field: nat, text: string)
      /** `min()` of the empty sequence of gaps on an axis with fewer than two
          distinct coordinates (`ValueError`). */
    | NoGap(axis: Axis)
      /** `np.arange` with a zero step (`ZeroDivisionError`). */
    | ZeroStep
      /** A five-name tuple unpack of a list of another length (`ValueError`). */
    | UnpackMismatch(name: string, fields: nat)
      /** An attribute read from the parsed command line that no argument
          defines (`AttributeError`). */
    | UndefinedArgument(name: string)
      /** A value that is not iterable handed where an iterable is expected
          (`TypeError`). */
    | NotIterable(what: string)

  datatype Result<+T> = Ok(value: T) | Err(error: Error) {

    predicate IsFailure() {
      Err?
    }

    function PropagateFailure<U>(): Result<U>
      requires Err?
    {
      Err(error)
    }

    function Extract(): T
      requires Ok?
    {
      value
    }
  }
}
