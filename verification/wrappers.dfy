/** Option, Result and the error kinds the Java code throws. */
module Wrappers {

  /** A Java reference that may be null: None stands for null. */
  datatype Option<+T> = None | Some(value: T)

  /** The exceptions of the modelled code, by kind (their messages are not modelled). */
  datatype Error =
    | NumberFormat          // Integer.parseInt rejected the text
    | IndexOutOfBounds      // an array or list index past the end
    | NullPointer           // a null array dereferenced
    | InvalidPid            // PID.parseHex: null text or a code the switch does not know
    | PidNotAllowed         // PID.valid: the PID is not allowed in the mode
    | InvalidMode           // Mode.parseHex: null text or unknown code
    | InvalidHexCode        // an enumeration's parseHex given null
    | UnknownStatus         // an enumeration's parseHex given an unknown code
    | InvalidAction         // Action.parse found no action of that name
    | InvalidBank           // bank number other than 1 or 2
    | InvalidSensor         // sensor number other than 1 or 2
    | TooManyResponses      // askOneLine got more than one response
    | InvalidResponse       // ask: first word of a line is not two characters long
    | Timeout               // readResponse: no prompt before the deadline
    | NoResponse            // readResponse: the buffer holds only whitespace
    | CommandUnsuccessful   // checkOkResponse: the last line is not OK

  /** A value, or the exception that replaced it. */
  datatype Result<+T> = Ok(value: T) | Err(error: Error)

  /** The outcome of a Java method returning void. */
  datatype Outcome = Pass | Fail(error: Error)
}
