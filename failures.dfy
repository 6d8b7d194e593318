/** Outcomes shared by every part of the reader.

    The reader reports two kinds of failure: errors it returns with `bail!`
    or `?` (an unknown serial type, an unknown page-type tag), and the places
    where it aborts the process (a slice index past the end of the buffer, an
    `unwrap` of a missing value, a `todo!()`).  Both end the run, so the model
    folds both into one `Error` type; each constructor says which situation it
    stands for.
 */
module Failures {

  datatype Option<+T> = None | Some(value: T)

  datatype Error =
    /** A serial type code that the record decoder does not handle (returned). */
    | InvalidSerialType(serialType: nat)
    /** A page-type tag byte other than 2, 5, 10 and 13 (returned). */
    | InvalidPageType(tag: int)
    /** A byte index or slice past the end of the buffer (the source panics). */
    | OutOfBounds
    /** An index page was reached; the source has `todo!()` there. */
    | Unimplemented
    /** `read_u32` on a value that is not a 1- to 4-byte integer (the source panics). */
    | NotSmallInteger
    /** A child pointer or root page of 0: `page - 1` underflows (the source panics). */
    | PageNumberZero
    /** No catalog row names the queried table (the source panics in `unwrap`). */
    | UnknownTable
    /** A queried or filtered column is missing from the column map
        (the source panics in `unwrap`). */
    | UnknownColumn
    /** The tree is deeper than the depth bound of the traversal; a well-formed
        file never reaches it, a self-referential one makes the source recurse
        without end. */
    | DepthExhausted

  /** A value or the error that stopped its computation; usable with `:-`. */
  datatype Result<+T> = Ok(value: T) | Err(error: Error) {

    predicate IsFailure() {
      Err?
    }

    function PropagateFailure<U>(): Result<U>
      requires Err?
    {
      Err(error)
    }

    function Extract(): T
      requires Ok?
    {
      value
    }
  }
}
