/** Results of the toolkit's operations: either the value the operation
    produced, or the error its own try/except caught and reported. */
module Outcomes {

  /** The exceptions an operation can raise inside its try block. */
  datatype Error =
    | FileNotFound(path: string)      // PdfReader / os.path.exists on a missing input
    | BadRangeToken(token: string)    // ValueError from unpacking map(int, token.split('-'))
    | IndexOutOfRange(index: int)     // IndexError from reader.pages[index]
    | ZeroPartSize                    // ZeroDivisionError from `// pages_per_part`

  datatype Result<+T> = Ok(value: T) | Err(error: Error)

  datatype Option<+T> = None | Some(value: T)
}
