/** The exceptions the bucketing core of the script can raise, and the
    result type its operations return instead of raising them. */
module Failures {

  /** One constructor per exception the core raises. Every one of them ends
      the run in the script: nothing is caught. */
  datatype Error =
      /** Tuple unpacking of a split result that does not have the expected
          number of parts (Python's "not enough / too many values to unpack"). */
    | UnpackMismatch(expected: nat, got: nat)
      /** `int(text)` on a string that is not a decimal integer literal. */
    | InvalidLiteral(text: string)
      /** The day-of-month classifier rejected a day outside 1..32. */
    | DayOutOfRange(day: int)
      /** A list or string index that does not exist (`keys[0]` of an empty
          list, `key[-2]` of a string shorter than two characters). */
    | IndexOutOfRange

  datatype Result<+T> = Ok(value: T) | Err(error: Error)
}
