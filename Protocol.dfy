/** The frame constants the connection code imports from the protocol definition. protocol.py is
    not part of this model, so their values are unknown here: they are gathered in one record
    that every operation takes as a parameter, and `Valid` states the only facts the model
    relies on. */
module Protocol {
  import opened Bytes

  datatype Constants = Constants(
    stx: byte,               // STX, the start-of-frame sentinel
    etx: byte,               // ETX, the end-of-frame sentinel
    ack: byte,               // ACK opcode
    nack: byte,              // NACK opcode
    ready: byte,             // READY opcode
    ackLength: nat,          // ACK_LENGTH, the ping's expected ACK frame length
    ackEmptyLength: nat,     // ACK_EMPTY_LENGTH, an ACK to a read that carries no data
    readyLength: nat,        // READY_LENGTH
    nackLength: nat,         // NACK_LENGTH
    etxEndPos: nat,          // FRAME_ETX_END_POS, ETX's distance from the end of a frame
    opPos: nat,              // FRAME_OP_POS, index of the opcode
    lenLsbPos: nat,          // FRAME_LEN_LSB_POS, index of the length field's low byte
    lenMsbPos: nat,          // FRAME_LEN_MSB_POS, index of the length field's high byte
    overhead: nat,           // FRAME_PROTOCOL_OVERHEAD, frame bytes that are not payload
    prefixLen: nat,          // FRAME_PROTOCOL_PREFIX_LEN, bytes up to and including the length field
    opRead: int,             // OPERATION_READ
    opWrite: int)            // OPERATION_WRITE
  {
    /** The length field lies inside the prefix, so it has arrived once the prefix has. */
    predicate LengthFieldInPrefix() {
      lenLsbPos < prefixLen && lenMsbPos < prefixLen
    }

    /** A frame of the given fixed length has an opcode position and an ETX position inside it. */
    predicate FitsFrame(length: nat) {
      1 <= etxEndPos <= length && opPos < length
    }

    /** What the model assumes of the unknown constants: the three response opcodes are
        distinct, the length field lies inside the prefix, and the fixed-length responses the
        ping accepts are long enough to hold the positions it inspects. */
    predicate Valid() {
      && ack != nack && ack != ready && nack != ready
      && LengthFieldInPrefix()
      && FitsFrame(ackLength) && FitsFrame(readyLength) && FitsFrame(nackLength)
    }
  }
}
