/** The parts of the gRPC runtime that the two servers touch, as values.
    A status error is a code and a message; a unary handler returns either a
    response or such an error; `ctx.Err()` yields one of three values. */
module Rpc {

  /** A protobuf message field that may be left unset (nil in Go). */
  datatype Option<+T> = None | Some(value: T)

  /** The status codes the handlers produce. */
  datatype Code = Canceled | InvalidArgument

  /** A gRPC status error: what `status.Error` and `status.Errorf` build. */
  datatype Status = Status(code: Code, message: string)

  /** The outcome of a unary handler: a response, or a status error and no response. */
  datatype Result<+T> = Ok(value: T) | Err(status: Status)

  /** What `ctx.Err()` returns: nil, `context.Canceled` or `context.DeadlineExceeded`. */
  datatype ContextErr = NoError | ContextCanceled | DeadlineExceeded
}
