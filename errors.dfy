/** The failures that panic reports, as values. The process exit that follows a
    panic is the caller's business; here a failure is just a result. */
module Errors {
  import opened Chars

  datatype Error =
    | ExpectedIdentifier(got: Ch)         // shiftname: first character is not [A-Za-z_]
    | IdentifierTooLong                   // shiftname: the name does not fit the buffer
    | ExpectedChar(want: char, got: Ch)   // expectc: end of input or another character
    | UnknownType(name: string)           // parse_type: the name read is not "int"

  datatype Result<+T> = Ok(value: T) | Err(err: Error) {
    predicate IsFailure() {
      Err?
    }

    function PropagateFailure<U>(): Result<U>
      requires Err?
    {
      Err(err)
    }

    function Extract(): T
      requires Ok?
    {
      value
    }
  }
}
