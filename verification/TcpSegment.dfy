// TCP segments as the client and the server see them: the header fields in host order, and the
// bytes behind the header.

module TcpSegment {
  import opened Bytes

  // The control bits of src/tcp.h. URG and the two reserved bits are never tested.
  datatype Flags = Flags(syn: bool, ack: bool, fin: bool, rst: bool, psh: bool)

  const NO_FLAGS := Flags(false, false, false, false, false)
  const SYN := Flags(true, false, false, false, false)
  const ACK := Flags(false, true, false, false, false)
  const SYN_ACK := Flags(true, true, false, false, false)
  const FIN_ACK := Flags(false, true, true, false, false)
  const RST_ACK := Flags(false, true, false, true, false)
  const FIN_PSH_ACK := Flags(false, true, true, false, true)

  // `len` is what payloadLength() computes from the received header, and `data` the bytes at
  // payload(). They agree unless the header lies about its own length.
  datatype Segment = Segment(
    sourcePort: u16, destinationPort: u16,
    seqNum: u32, ackNum: u32,
    flags: Flags,
    len: u16, data: seq<u8>)
  {
    ghost predicate WellFormed() { len == |data| }
  }

  function Empty(sourcePort: u16, destinationPort: u16, seqNum: u32, ackNum: u32, flags: Flags): Segment {
    Segment(sourcePort, destinationPort, seqNum, ackNum, flags, 0, [])
  }
}
