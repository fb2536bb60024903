/** Failure-aware result types shared by the whole model. */
module Wrappers {

  datatype Option<+T> = None | Some(value: T)

  datatype Result<+T, +E> = Ok(value: T) | Err(error: E)

  /** Which input table a failure was found in. */
  datatype InputFile = UnicodeData | Os2UnicodeRanges

  /** Why a row was refused. Each reason stands for one way the generator aborts on a row. */
  datatype Reason =
    | MissingField      // a field the row must have is not there (an IndexError)
    | WrongFieldCount   // a row or a range does not split into the expected number of parts
    | BadHex            // a code-point field is not a non-empty run of hexadecimal digits
    | BadDecimal        // a bit-number field is not a non-empty run of decimal digits
    | LastWithoutFirst  // a "Last" row arrives while no "First" row is pending

  /** A fatal error: the file, the zero-based row where the run stops, and the reason. */
  datatype Failure = Failure(file: InputFile, row: nat, reason: Reason)
}
