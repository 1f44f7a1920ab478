/** How a Lambda handler invocation ends: with the response it returns, or
    with the error it throws, which the invoking platform then handles. */
module Invocation {

  /** The `{ statusCode, body }` object a handler returns. */
  datatype Response = Response(statusCode: nat, body: string)

  datatype Outcome<+E> = Returned(response: Response) | Threw(error: E)
}
