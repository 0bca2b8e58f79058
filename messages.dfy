/**
 * The application-level messages exchanged between the renderer backend and
 * the host. The byte layout of the fixed-size envelope is not modelled: a
 * message is a tagged value, and a block read from a socket is a Delivery that
 * carries its byte length beside the message it decodes to.
 */
module Messages {

  /** IPC::Message::size, the one length every whole message has. The header
      that defines it is not part of this model; no property depends on the
      value, only on comparing a delivery's length against it. */
  const MessageSize: nat := 32

  /** One message kind per IPC code; pool and buffer IDs are uint32 on the wire. */
  datatype Msg =
    | PoolConstruction
    | PoolConstructionReply(poolID: nat)
    | RegisterPool(poolID: nat)
    | PoolPurge(poolID: nat)
    | UnregisterPool(poolID: nat)
    | BufferAllocation(poolID: nat, bufferID: nat)
    | BufferCommit(poolID: nat, bufferID: nat)
    | FrameComplete(poolID: nat)
    | ReleaseBuffer(poolID: nat, bufferID: nat)

  /** A block of `size` bytes handed to a message handler; `msg` is what the
      bytes decode to, meaningful only when the size is MessageSize. */
  datatype Delivery = Delivery(size: nat, msg: Msg)

  predicate WellSized(d: Delivery)
  {
    d.size == MessageSize
  }
}
