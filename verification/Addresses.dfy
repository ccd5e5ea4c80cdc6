/** common::Address, as the host and port that its string form shows. */
module Addresses {

  type Host = string

  const PORTS := 0x1_0000

  type Port = p: int | 0 <= p < PORTS

  datatype Address = Address(host: Host, port: Port)
  {
    /** incrementPort: sixteen bits, so the last port is followed by port 0. */
    function Incremented(): Address { Address(host, (port + 1) % PORTS) }
  }

  const LOCALHOST: Host := "::1"

  predicate IsLoopback(address: Address, port: int) { address.host == LOCALHOST && address.port == port }

  /** The reply goes one port up exactly when the port is not the last one. */
  lemma IncrementedIsNextIff(address: Address)
    ensures address.Incremented().port == address.port + 1 <==> address.port < PORTS - 1
    ensures address.Incremented().host == address.host
  {}

  /** Only the own host's messages from the given port. */
  lemma LoopbackIff(host: Host, from: Port, port: int)
    ensures IsLoopback(Address(host, from), port) <==> host == "::1" && from == port
  {}
}
