// A parsed packet, as far as flows, conversations and storage use it.
module Packets {
  import opened Wrappers
  import opened Bytes
  import opened Reassembly

  /** `ts` is in seconds; `payload` is the transport payload and `tcpSeq` its sequence number. */
  datatype ParsedPacket = ParsedPacket(
    ts: real,
    source: string,
    destination: string,
    protocol: string,
    srcPort: Option<nat>,
    dstPort: Option<nat>,
    length: nat,
    raw: bytes,
    tcpSeq: Seq32,
    payload: bytes)

  /** Python's `port or 0`. */
  function PortOrZero(p: Option<nat>): nat {
    if p.Some? then p.value else 0
  }
}
