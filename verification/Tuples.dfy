/** The 5-tuples that name connections. */
module Tuples {
  import opened Words

  const IPPROTO_ICMP := 1
  const IPPROTO_TCP := 6
  const IPPROTO_UDP := 17
  const IPPROTO_ICMPV6 := 58

  datatype Proto = Tcp | Udp | Icmp | Other

  /** Addresses and ports as they stand in a packet; for ICMP the source port is the echo ID of a request, and the
      destination port that of a reply. */
  datatype Tuple = Tuple(srcIp: bytes, dstIp: bytes, srcPort: bytes, dstPort: bytes, ipver: nat, proto: nat) {
    predicate Valid() {
      && (ipver == 4 || ipver == 6)
      && |srcIp| == |dstIp| == (if ipver == 4 then 4 else 16)
      && |srcPort| == |dstPort| == 2
      && Transport() != Other
    }

    function Swapped(): Tuple {
      Tuple(dstIp, srcIp, dstPort, srcPort, ipver, proto)
    }

    function Transport(): Proto {
      if proto == IPPROTO_TCP then Tcp
      else if proto == IPPROTO_UDP then Udp
      else if proto == IPPROTO_ICMP then Icmp
      else Other
    }

    /** The protocol number in the IP header and the pseudo-header. */
    function Next(): byte
      requires Valid()
    {
      if ipver == 6 && Transport() == Icmp then IPPROTO_ICMPV6 else proto
    }

    /** The echo ID of an ICMP packet that was parsed to this tuple. */
    function EchoId(): bytes {
      if dstPort == [0, 0] then srcPort else dstPort
    }

    /** What handle_icmp_fwd makes of the tuple of a new connection: its source port becomes the echo ID. */
    function Rewritten(): Tuple {
      this.(srcPort := EchoId())
    }
  }
}
