/** The packet formats of the standards, and what the parser of zdtun.c reads in every packet of them. */
module IpFormats {
  import opened Words
  import opened Tuples
  import opened Packet

  function Bit(b: bool, weight: nat): nat {
    if b then weight else 0
  }

  /** The fields of an IPv4 header (section 3.1 of RFC 791); the fragment offset counts blocks of 8 bytes. */
  datatype Header4 = Header4(tos: byte, totLen: u16, id: u16, evil: bool, dontFragment: bool, moreFragments: bool, offset: nat,
                             ttl: byte, proto: byte, sum: u16, src: bytes, dst: bytes, options: bytes)
  {
    predicate Valid() {
      offset < 8192 && |src| == 4 && |dst| == 4 && |options| % 4 == 0 && |options| <= 40
    }

    function Len(): nat {
      20 + |options|
    }

    function Layout(): (h: bytes)
      requires Valid()
      ensures |h| == Len()
    {
      [64 + 5 + |options| / 4, tos] + Be16(totLen) + Be16(id)
      + Be16(Bit(evil, 32768) + Bit(dontFragment, 16384) + Bit(moreFragments, 8192) + offset) + [ttl, proto] + Be16(sum)
      + src + dst + options
    }
  }

  /** Every IPv4 packet is read by its header: a first fragment is one with more to come at offset 0, and bytes past the
      total length are dropped. One whose total length does not cover the header is refused. */
  lemma Ipv4Read(h: Header4, rest: bytes)
    requires h.Valid()
    ensures ParseIp(h.Layout() + rest) ==
            if h.totLen < h.Len() then None
            else
              Some(Ip(h.src, h.dst, 4, h.proto, h.Len(), Min(h.Len() + |rest|, h.totLen), h.moreFragments || h.offset > 0,
                      h.moreFragments && h.offset == 0, h.moreFragments, h.id))
  {
    var frag := Bit(h.evil, 32768) + Bit(h.dontFragment, 16384) + Bit(h.moreFragments, 8192) + h.offset;
    var p := h.Layout() + rest;
    assert p[0] == 69 + |h.options| / 4 && p[9] == h.proto;
    assert Word(p, 2) == h.totLen && Word(p, 4) == h.id && Word(p, 6) == frag;
    assert p[12..16] == h.src && p[16..20] == h.dst;
    FragmentBits(h.evil, h.dontFragment, h.moreFragments, h.offset);
  }

  lemma FragmentBits(evil: bool, dontFragment: bool, more: bool, offset: nat)
    requires offset < 8192
    ensures var frag := Bit(evil, 32768) + Bit(dontFragment, 16384) + Bit(more, 8192) + offset;
            frag % 0x2000 == offset && (frag / 0x2000 % 2 == 1 <==> more)
  {
  }

  /** An IPv6 header (section 3 of RFC 8200); `start` holds version, traffic class and flow label. */
  function Layout6(start: bytes, payloadLen: u16, next: byte, hops: byte, src: bytes, dst: bytes): (h: bytes)
    requires |start| == 4 && |src| == 16 && |dst| == 16
    ensures |h| == 40
  {
    start + Be16(payloadLen) + [next, hops] + src + dst
  }

  /** Every IPv6 packet is read by its fixed header; extension headers are refused, ICMPv6 is taken for ICMP. */
  lemma Ipv6Read(start: bytes, payloadLen: u16, next: byte, hops: byte, src: bytes, dst: bytes, rest: bytes)
    requires |start| == 4 && 96 <= start[0] < 112 && |src| == 16 && |dst| == 16
    ensures ParseIp(Layout6(start, payloadLen, next, hops, src, dst) + rest) ==
            if next != 6 && next != 17 && next != 1 && next != 58 then None
            else
              Some(Ip(src, dst, 6, if next == 58 then 1 else next, 40, Min(40 + |rest|, 40 + payloadLen), false, false, false, 0))
  {
    var p := Layout6(start, payloadLen, next, hops, src, dst) + rest;
    assert p[0] == start[0] && p[6] == next && Word(p, 4) == payloadLen;
    assert p[8..24] == src && p[24..40] == dst;
  }

  /** Anything shorter than an IPv4 header, or of another version, is refused and leaves the fragment table alone. */
  lemma NoIpRead(p: bytes, ports: Ports)
    requires |p| <= MAX_PACKET && (|p| < 20 || !(64 <= p[0] < 80 || 96 <= p[0] < 112))
    ensures ParsePkt(p, ports) == ParseOutcome(Error(-1), ports)
  {
  }

  /** A TCP header (section 3.1 of RFC 793) from its ports on: `offset` counts its 32-bit words. */
  function TcpLayout(sport: bytes, dport: bytes, numbers: bytes, offset: nat, reserved: nat, rest: bytes): bytes
    requires |numbers| == 8 && offset < 16 && reserved < 16
  {
    sport + dport + numbers + [offset * 16 + reserved] + rest
  }

  /** Ports and length of the TCP header behind any IP header; it must lie in the packet with its options. */
  lemma TcpRead(head: bytes, sport: bytes, dport: bytes, numbers: bytes, offset: nat, reserved: nat, rest: bytes, ip: Ip)
    requires |sport| == |dport| == 2 && |numbers| == 8 && offset < 16 && reserved < 16
    requires ip.hdrLen == |head| && ip.proto == 6
    requires var p := head + TcpLayout(sport, dport, numbers, offset, reserved, rest); ip.len <= |p|
    ensures ParseL4(head + TcpLayout(sport, dport, numbers, offset, reserved, rest), ip) ==
            if ip.len < |head| + 20 || ip.len < |head| + 4 * offset then Refused(-1) else L4(4 * offset, sport, dport)
  {
    var s := TcpLayout(sport, dport, numbers, offset, reserved, rest);
    var p := head + s;
    assert s[..2] == sport && s[2..4] == dport && s[12] == offset * 16 + reserved;
    assert p[|head|..|head| + 2] == s[..2] && p[|head| + 2..|head| + 4] == s[2..4] && p[|head| + 12] == s[12];
  }

  /** The same for UDP (RFC 768). */
  lemma UdpRead(head: bytes, sport: bytes, dport: bytes, rest: bytes, ip: Ip)
    requires |sport| == |dport| == 2 && ip.hdrLen == |head| && ip.proto == 17 && ip.len <= |head + (sport + dport + rest)|
    ensures ParseL4(head + (sport + dport + rest), ip) ==
            if ip.len < |head| + 8 then Refused(-1) else L4(8, sport, dport)
  {
    var s := sport + dport + rest;
    var p := head + s;
    assert s[..2] == sport && s[2..4] == dport;
    assert p[|head|..|head| + 2] == s[..2] && p[|head| + 2..|head| + 4] == s[2..4];
  }

  /** Of ICMP, echo messages of either version are read (RFC 792, RFC 4443): the echo ID stands for the source port of a
      request and the destination port of a reply. Other types are refused with -2, and other protocols with -3. */
  lemma IcmpRead(head: bytes, kind: byte, code: byte, sum: bytes, id: bytes, rest: bytes, ip: Ip)
    requires |sum| == |id| == 2 && ip.hdrLen == |head| && ip.proto == 1 && ip.len <= |head + ([kind, code] + sum + id + rest)|
    ensures ParseL4(head + ([kind, code] + sum + id + rest), ip) ==
            if ip.len < |head| + 8 then Refused(-1)
            else if kind == 8 || kind == 128 then L4(8, id, [0, 0])
            else if kind == 0 || kind == 129 then L4(8, [0, 0], id)
            else Refused(-2)
  {
    var s := [kind, code] + sum + id + rest;
    var p := head + s;
    assert s[0] == kind && s[4..6] == id;
    assert p[|head| + 4..|head| + 6] == s[4..6] && p[|head|] == s[0];
  }

  lemma OthersRefused(p: bytes, ip: Ip)
    requires ip.len <= |p| && ip.proto != 6 && ip.proto != 17 && ip.proto != 1
    ensures ParseL4(p, ip) == Refused(-3)
  {
  }

  /** What the parser makes of a packet whose headers were read: a refusal, or the tuple and lengths. Ports are noted for a
      first fragment; a later one takes those noted, and forgets them if it is the last. */
  lemma PacketRead(p: bytes, ports: Ports, ip: Ip, l4: L4)
    requires |p| <= MAX_PACKET && ParseIp(p) == Some(ip) && ip.len <= |p|
    requires ParseL4(p, ip) == l4
    ensures ParsePkt(p, ports) ==
            if ip.fragment && !ip.first then
              var pp := if ip.id in ports then ports[ip.id] else PortPair([0, 0], [0, 0]);
              ParseOutcome(Packet(Parsed(Tuple(ip.src, ip.dst, pp.sport, pp.dport, ip.ipver, ip.proto), true, false, ip.len,
                                         ip.hdrLen, 0, ip.len - ip.hdrLen)),
                           if ip.more then ports else ports[ip.id := PortPair([0, 0], [0, 0])])
            else if l4.Refused? then ParseOutcome(Error(l4.rv), ports)
            else
              ParseOutcome(Packet(Parsed(Tuple(ip.src, ip.dst, l4.sport, l4.dport, ip.ipver, ip.proto), ip.fragment, ip.first,
                                         ip.len, ip.hdrLen, l4.hdrLen, ip.len - ip.hdrLen - l4.hdrLen)),
                           if ip.first then ports[ip.id := PortPair(l4.sport, l4.dport)] else ports)
  {
    hide ParseIp, ParseL4;
  }
}
