/** Failure-compatible wrappers used across the parser model.

- Option<T> stands for the per-block `try ... except: continue` of the record
  assembly: None is a block that was skipped.
- Result<T> stands for an exception that escapes `parse_db` altogether: the
  Fault says which unguarded index raised it.
 */
module Results {

  datatype Option<+T> = None | Some(value: T)

  /** The two IndexErrors that nothing in `parse_db` catches. */
  datatype Fault =
    | TitleScanOutOfRange   // `words[i+j]` read past the end of the page during the title scan
    | NoSecondToLastLine    // `processed_lines[-2]` on a page that has a single line

  datatype Result<+T> = Ok(value: T) | Err(fault: Fault) {

    predicate IsFailure() {
      Err?
    }

    function PropagateFailure<U>(): Result<U>
      requires Err?
    {
      Err(fault)
    }

    function Extract(): T
      requires Ok?
    {
      value
    }
  }
}
