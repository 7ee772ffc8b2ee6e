/** The exceptions the core raises. In the source every one of them is an
    `IllegalArgumentException`; they are told apart here by their message. */
module Errors {

  datatype Error =
      /** "Time is null or empty." */
    | BlankTime
      /** "Invalid time format: <normalised text>" */
    | InvalidTimeFormat(text: string)
      /** "Start or end time can not be null" */
    | MissingWindowBound
      /** "Start time must be before end time" */
    | StartNotBeforeEnd
      /** "Invalid integer, must be between 0 and 1439" */
    | MinuteOutOfRange
}
