/**
 * The connection handle of the `ws` library, seen from the chat server:
 * an object whose ready state the transport changes, and the record of
 * one `send` call.
 */
module Connection {

  /** The four ready states of a WebSocket; only `Open` accepts sends. */
  datatype ReadyState = Connecting | Open | Closing | Closed

  /**
   * One client connection. Its identity is the object reference, and its
   * ready state is read live each time the server broadcasts.
   */
  class Socket {
    var readyState: ReadyState

    constructor (state: ReadyState)
      ensures readyState == state
    {
      readyState := state;
    }
  }

  /** One `ws.send(frame)` call: the socket written to and the text sent. */
  datatype Delivery = Delivery(socket: Socket, frame: string)
}
