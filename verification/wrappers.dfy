/** Failure-compatible result types and the error values raised by the bookmark tools.

    Every Python exception the modelled code can raise becomes one `Error` constructor,
    so that an operation that may fail returns a `Result` instead of demanding, through a
    precondition, that its input be well formed.
 */
module Wrappers {

  datatype Option<+T> = None | Some(value: T) {
    predicate IsFailure() { None? }

    function PropagateFailure<U>(): Option<U>
      requires None?
    {
      None
    }

    function Extract(): T
      requires Some?
    {
      value
    }
  }

  /** The exceptions of the modelled code, with the data their messages carry. */
  datatype Error =
    | ParseError(content: string)        // "Parse-error on content: ..." (ValueError)
    | KeyError(key: string)              // a required attribute is absent
    | InvalidInt(text: string)           // int() of a non-numeric attribute value (ValueError)
    | UnrecognizedLine(line: string)     // a <DT> line that is neither <A ...> nor <H3 ...>
    | MissingOpeningDL(markup: string)   // a folder header not followed by "<DL><p>"
    | NotADDLine(line: string)           // a line containing <DD> of the wrong shape (AttributeError)
    | DDOutOfPlace                       // "<DD> tag out of place"
    | UnknownContent(line: string)       // "Unknown content: ..."
    | ClosingNotFound(name: string)      // "Closing <DL> for folder ... not found"
    | MissingRootDL                      // "Missing expected opening <DL>"
    | IndexError                         // pop from an empty queue, [-1] of an empty list, ...
    | ZeroDivision                       // an average over no entries

  datatype Result<+T> = Ok(value: T) | Err(error: Error) {
    predicate IsFailure() { Err? }

    function PropagateFailure<U>(): Result<U>
      requires Err?
    {
      Err(error)
    }

    function Extract(): T
      requires Ok?
    {
      value
    }
  }
}
