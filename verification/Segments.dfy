/** What travels between two endpoints. */
module Segments {
  import opened Words

  datatype Flags = Flags(syn: bool, ack: bool, rst: bool, fin: bool)

  const SYN: Flags := Flags(true, false, false, false)
  const ACK: Flags := Flags(false, true, false, false)
  const RST: Flags := Flags(false, false, true, false)
  const SYN_ACK: Flags := Flags(true, true, false, false)
  const FIN_ACK: Flags := Flags(false, true, false, true)

  datatype Segment = Segment(seqNum: uint32, ackNum: uint32, flags: Flags, window: uint16, payload: seq<byte>)
}
