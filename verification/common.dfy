/** Values shared by every part of the truth-table model: the 0/1 cell value,
    the optional and failure-carrying wrappers, and the ways construction aborts. */
module Common {

  /** A truth-table cell: the source stores these as Python ints 0 and 1. */
  type Bit = x: int | 0 <= x <= 1

  datatype Option<+T> = None | Some(value: T)

  datatype Result<+T, +E> = Success(value: T) | Failure(error: E)

  /** The exceptions that abort building a table or evaluating a gate. */
  datatype Error =
    | InvalidColumnIndex(index: int)     // `_construct_column` rejects the index
    | UnresolvedReference(name: string)  // a column name is not (yet) in the index (KeyError)
    | EmptyOperands                      // `values[0]` / `inputs[0]` of an empty list (IndexError)
    | NotArity(count: nat)               // NOT's one-argument callable given two values (TypeError)
}
