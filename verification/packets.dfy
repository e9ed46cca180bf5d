/** The packet every layer of the mesh talks about. */
module Packets {
  import opened Base

  /** A packet: the four header fields and the payload. The header fields are
      Python ints: bytes when a packet is read off the air, whatever the caller
      passed when a packet is built by `send`. The source carries packets as
      5-tuples in one place and as raw frames in another; this model uses this
      one datatype for both. */
  datatype Packet = Packet(to: int, from: int, id: int, flags: int, payload: Bytes)

  /** Destination meaning "every node"; as a node address, "relay only". */
  const BroadcastAddress: int := 255

  /** The part of the header deduplication looks at: flags and payload play
      no part. */
  datatype Key = Key(to: int, from: int, id: int)

  function KeyOf(p: Packet): Key {
    Key(p.to, p.from, p.id)
  }
}
