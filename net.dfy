/** Datagrams as the model sees them: already decoded text plus an address.
    Latin-1 encoding and decoding are the identity on these strings. */
module Net {

  /** A datagram handed to `sendto`: payload and destination. */
  datatype Outbound = Outbound(payload: string, host: string, port: int)

  /** A datagram returned by `recvfrom`: payload and source address. */
  datatype Inbound = Inbound(payload: string, host: string, port: int)
}
