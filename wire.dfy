/**
 * What travels through the relay: opaque byte buffers and the WebSocket
 * frames a consumer connection reads and writes.
 */
module Wire {

  /** An opaque buffer of the media stream; the relay never looks inside it. */
  type Bytes = seq<bv8>

  /** The WebSocket message types of RFC 6455, section 5.2 (text, binary, close, ping, pong). */
  datatype MessageType = TextMessage | BinaryMessage | CloseMessage | PingMessage | PongMessage

  /** One frame written to a consumer's transport: `ws.WriteMessage(msgType, payload)`. */
  datatype Frame = Frame(msgType: MessageType, payload: Bytes)

  /** The outcome of one `ws.ReadMessage()`: a message, or a read error. */
  datatype ReadResult = Received(msgType: MessageType, payload: Bytes) | ReadFailed

  /** A read result that ends the inbound loop: an error or a close message. */
  predicate EndsSession(r: ReadResult): (ends: bool)
    ensures !ends <==> r.Received? && r.msgType in {TextMessage, BinaryMessage, PingMessage, PongMessage}
  {
    r.ReadFailed? || r.msgType == CloseMessage
  }
}
