/** How a command ends, and how an upstream API call can fail. */
module Outcome {

  /** A failed API call: either the server answered with an error body, whose
      `errorMessages` are printed, or there was no usable response at all. */
  datatype ApiError = Structured(messages: seq<string>) | Transport(message: string)

  /** A command returns an exit status, or stops the process through PHP's
      `die($message)`, which prints the message and exits with status 0. */
  datatype Exit = Status(code: int) | Died(message: string)
}
