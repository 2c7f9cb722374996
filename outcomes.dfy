/** Optional values, results, and the exceptions of the checker that the model tells apart. */
module Outcomes {

  datatype Option<+T> = None | Some(value: T)

  /** The outcome of a Python call that either returns a value or raises. */
  datatype Result<+T> = Ok(value: T) | Err(error: Error)

  /** The exceptions the checker's core can raise. */
  datatype Error =
    | KeyMissing(key: string)      // KeyError on a configuration key
    | NotAString(key: string)      // a list configured where a string is used
    | UnclosedField                // str.format: expected '}' before end of string
    | SingleClose                  // str.format: single '}' encountered in format string
    | UnknownField(name: string)   // str.format: a replacement field other than {license} or {year}
    | UndefinedName(name: string)  // NameError
}
