/**
  What the sessions and the multiplexer say about a socket: the state of its connection and the events it
  is watched for.
 */
module Sockets {

  datatype ConnectionState = INVALID | OPEN | CLOSING | CLOSED

  datatype Interest = Interest(read: bool, write: bool)

  const OP_NOOP := Interest(false, false)
  const OP_READ := Interest(true, false)
  const OP_WRITE := Interest(false, true)
}
