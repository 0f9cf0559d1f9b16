/** Packets as bytes: what zdtun.c builds for the client and how it parses what it is given. */
module Packet {
  import opened Words
  import opened Tuples
  import opened Checksum

  const IPV4_HEADER_LEN := 20
  const IPV6_HEADER_LEN := 40
  const TCP_HEADER_LEN := 20
  const UDP_HEADER_LEN := 8
  const ICMP_HEADER_LEN := 8
  const ICMP_ECHOREPLY := 0
  const ICMP_ECHO := 8
  const ICMPv6_ECHO := 128
  const ICMPv6_ECHOREPLY := 129
  const MAX_PACKET := 65535

  function HeaderLen(t: Tuple): nat {
    if t.ipver == 4 then IPV4_HEADER_LEN else IPV6_HEADER_LEN
  }

  function Be16(x: u16): bytes {
    [x / 256, x % 256]
  }

  function Be32(x: u32): bytes {
    Be16(x / 0x1_0000) + Be16(x % 0x1_0000)
  }

  function Word(p: bytes, i: nat): u16
    requires i + 1 < |p|
  {
    p[i] as int * 256 + p[i + 1]
  }

  // ------------------------------------------------------------------ what is built

  /** The IPv4 header with its checksum field still zero. */
  function Ipv4Blank(t: Tuple, l3Len: nat): (h: bytes)
    requires t.Valid() && t.ipver == 4 && l3Len + IPV4_HEADER_LEN <= MAX_PACKET
    ensures |h| == IPV4_HEADER_LEN && h[10] == 0 && h[11] == 0
  {
    [0x45, 0] + Be16(l3Len + IPV4_HEADER_LEN) + [0, 0, 0x40, 0, 64, t.Next(), 0, 0] + t.dstIp + t.srcIp
  }

  function IpHeader(t: Tuple, l3Len: nat): (h: bytes)
    requires t.Valid() && l3Len + HeaderLen(t) <= MAX_PACKET
    ensures |h| == HeaderLen(t)
  {
    if t.ipver == 4 then
      var h := Ipv4Blank(t, l3Len);
      StoreWord(h, 10, Complement(Canon(WordSum(h))))
    else [0x60, 0, 0, 0] + Be16(l3Len) + [t.Next(), 64] + t.dstIp + t.srcIp
  }

  /** The pseudo-header zdtun_l3_checksum sums; the IPv6 length is stored with its two bytes first. */
  function Pseudo(t: Tuple, l3Len: nat): (b: bytes)
    requires t.Valid() && l3Len <= MAX_PACKET
    ensures |b| % 2 == 0
  {
    if t.ipver == 4 then t.dstIp + t.srcIp + [0, t.Next()] + Be16(l3Len)
    else t.dstIp + t.srcIp + (Be16(l3Len) + [0, 0, 0, 0, 0, t.Next()])
  }

  /** The pseudo-header of RFC 793 and of section 8.1 of RFC 8200. */
  function StandardPseudo(t: Tuple, l3Len: nat): (b: bytes)
    requires t.Valid() && l3Len <= MAX_PACKET
    ensures |b| % 2 == 0
  {
    if t.ipver == 4 then t.dstIp + t.srcIp + [0, t.Next()] + Be16(l3Len)
    else t.dstIp + t.srcIp + ([0, 0] + Be16(l3Len) + [0, 0, 0, t.Next()])
  }

  /** The checksum over pseudo-header and segment, complemented. */
  function L3Sum(t: Tuple, segment: bytes): u16
    requires t.Valid() && |segment| <= MAX_PACKET
  {
    Complement(Canon(WordSum(Pseudo(t, |segment|) + segment)))
  }

  /** A TCP header to the client with its checksum field still zero; `optsOff` counts 32-bit words of options. */
  function TcpHeader(t: Tuple, flags: byte, seqNo: u32, ackNo: u32, win: u16, optsOff: nat): (h: bytes)
    requires t.Valid() && optsOff <= 10
    ensures |h| == TCP_HEADER_LEN && h[16] == 0 && h[17] == 0
  {
    t.dstPort + t.srcPort + (Be32(seqNo) + Be32(ackNo) + [(5 + optsOff) * 16, flags] + Be16(win) + [0, 0, 0, 0])
  }

  /** TH_ACK is set. */
  predicate HasAck(flags: byte) {
    flags / 16 % 2 == 1
  }

  /** A TCP packet to the client; `rest` holds the options, 4 * optsOff bytes, and the payload. */
  function TcpPacket(t: Tuple, flags: byte, seqNo: u32, ackNo: u32, win: u16, optsOff: nat, rest: bytes): bytes
    requires t.Valid() && 4 * optsOff <= Min(40, |rest|) && HeaderLen(t) + TCP_HEADER_LEN + |rest| <= MAX_PACKET
  {
    var s := TcpHeader(t, flags, seqNo, ackNo, win, optsOff) + rest;
    IpHeader(t, |s|) + StoreWord(s, 16, L3Sum(t, s))
  }

  function UdpBlank(t: Tuple, payload: bytes): (s: bytes)
    requires t.Valid() && UDP_HEADER_LEN + |payload| <= MAX_PACKET
    ensures |s| == UDP_HEADER_LEN + |payload| && s[6] == 0 && s[7] == 0
  {
    t.dstPort + t.srcPort + (Be16(UDP_HEADER_LEN + |payload|) + [0, 0] + payload)
  }

  /** A UDP packet to the client; over IPv4 it carries no checksum. */
  function UdpPacket(t: Tuple, payload: bytes): bytes
    requires t.Valid() && HeaderLen(t) + UDP_HEADER_LEN + |payload| <= MAX_PACKET
  {
    var s := UdpBlank(t, payload);
    IpHeader(t, |s|) + if t.ipver == 4 then s else StoreWord(s, 6, L3Sum(t, s))
  }

  /** The ICMP message `m` the kernel returned, with the client's echo ID and a zero checksum. */
  function IcmpBlank(t: Tuple, m: bytes): (s: bytes)
    requires t.Valid() && |m| >= ICMP_HEADER_LEN
    ensures |s| == |m| && s[2] == 0 && s[3] == 0
  {
    m[..2] + [0, 0] + t.srcPort + m[6..]
  }

  function IcmpPacket(t: Tuple, m: bytes): bytes
    requires t.Valid() && |m| >= ICMP_HEADER_LEN && HeaderLen(t) + |m| <= MAX_PACKET
  {
    var s := IcmpBlank(t, m);
    IpHeader(t, |s|) + StoreWord(s, 2, if t.ipver == 4 then Complement(Canon(WordSum(s))) else L3Sum(t, s))
  }

  // ------------------------------------------------------------------ building in the reply buffer

  /** `b` with `x` written at `off`. */
  function Patch(b: bytes, off: nat, x: bytes): (r: bytes)
    requires off + |x| <= |b|
    ensures |r| == |b|
  {
    b[..off] + x + b[off + |x|..]
  }

  method Put(buf: array<byte>, off: nat, x: bytes)
    requires off + |x| <= buf.Length
    modifies buf
    ensures buf[..] == Patch(old(buf[..]), off, x)
  {
    forall i | 0 <= i < |x| {
      buf[off + i] := x[i];
    }
  }

  method PutWord(buf: array<byte>, off: nat, w: u16)
    requires off + 1 < buf.Length
    modifies buf
    ensures buf[..] == StoreWord(old(buf[..]), off, w)
  {
    buf[off] := w % 256;
    buf[off + 1] := w / 256;
  }

  /** zdtun_make_iphdr. */
  method MakeIpHdr(buf: array<byte>, t: Tuple, l3Len: nat)
    requires t.Valid() && l3Len + HeaderLen(t) <= buf.Length <= MAX_PACKET
    modifies buf
    ensures buf[..] == Patch(old(buf[..]), 0, IpHeader(t, l3Len))
  {
    if t.ipver == 4 {
      var blank := [0x45, 0] + Be16(l3Len + IPV4_HEADER_LEN) + [0, 0, 0x40, 0, 64, t.Next(), 0, 0] + t.dstIp + t.srcIp;
      Put(buf, 0, blank);
      assert buf[..20] == blank;
      var sum := CalcChecksum(0, buf[..20]);
      PutWord(buf, 10, Complement(sum));
    } else {
      Put(buf, 0, [0x60, 0, 0, 0] + Be16(l3Len) + [t.Next(), 64] + t.dstIp + t.srcIp);
    }
  }

  /** zdtun_l3_checksum: the segment first, then the pseudo-header. */
  method L3Checksum(t: Tuple, segment: bytes) returns (sum: u16)
    requires t.Valid() && |segment| <= MAX_PACKET
    ensures sum == L3Sum(t, segment)
  {
    var rv := CalcChecksum(0, segment);
    rv := CalcChecksum(rv, Pseudo(t, |segment|));
    SegmentThenPseudo(segment, Pseudo(t, |segment|));
    sum := Complement(rv);
  }

  /** A header patched into the buffer at `h`, the IP header before it, and what is in the buffer behind it. */
  lemma Built(b: bytes, h: nat, header: bytes, ip: bytes, end: nat)
    requires |ip| == h && h + |header| <= end <= |b|
    ensures Patch(Patch(b, h, header), 0, ip)[..end] == ip + (header + b[h + |header|..end])
    ensures Patch(Patch(b, h, header), 0, ip)[h..end] == header + b[h + |header|..end]
  {
  }

  lemma StoredAfter(b: bytes, ip: bytes, segment: bytes, off: nat, w: u16)
    requires off + 1 < |segment| && |ip| + |segment| <= |b| && b[..|ip| + |segment|] == ip + segment
    ensures StoreWord(b, |ip| + off, w)[..|ip| + |segment|] == ip + StoreWord(segment, off, w)
  {
    var end := |ip| + |segment|;
    var l, r := StoreWord(b, |ip| + off, w)[..end], ip + StoreWord(segment, off, w);
    forall i | 0 <= i < end
      ensures l[i] == r[i]
    {
      assert b[i] == (ip + segment)[i];
    }
  }

  /** The checksum of the segment behind the IP header is stored in it. */
  method StoreSum(buf: array<byte>, t: Tuple, h: nat, end: nat, off: nat, ghost ip: bytes, ghost s: bytes)
    requires t.Valid() && h <= end <= buf.Length <= MAX_PACKET && off + 1 < end - h
    requires |ip| == h && buf[..end] == ip + s
    modifies buf
    ensures buf[..end] == ip + StoreWord(s, off, L3Sum(t, s))
  {
    hide StoreWord, L3Sum;
    ghost var b := buf[..];
    assert b[..end] == buf[..end];
    assert buf[h..end] == (ip + s)[h..] == s;
    var sum := L3Checksum(t, buf[h..end]);
    PutWord(buf, h + off, sum);
    StoredAfter(b, ip, s, off, sum);
    assert buf[..end] == buf[..][..end];
  }

  lemma TcpPacketIs(t: Tuple, flags: byte, seqNo: u32, ackNo: u32, win: u16, optsOff: nat, rest: bytes)
    requires t.Valid() && 4 * optsOff <= Min(40, |rest|) && HeaderLen(t) + TCP_HEADER_LEN + |rest| <= MAX_PACKET
    ensures var s := TcpHeader(t, flags, seqNo, ackNo, win, optsOff) + rest;
            && |s| == TCP_HEADER_LEN + |rest| && |IpHeader(t, |s|)| == HeaderLen(t)
            && TcpPacket(t, flags, seqNo, ackNo, win, optsOff, rest) == IpHeader(t, |s|) + StoreWord(s, 16, L3Sum(t, s))
  {
    hide IpHeader, L3Sum, StoreWord;
  }

  // ------------------------------------------------------------------ the window advertised

  function Divided(m: nat, p: nat): nat
    requires p > 0
  {
    m / p
  }

  lemma DividedBelow(m: nat, p: nat, k: nat)
    requires p > 0 && m < k * p
    ensures m / p < k
  {
  }

  /** The window field of a packet to the client, for the free space `free` of the server socket's send buffer. */
  function AdvertisedWindow(free: u32, scale: nat): u16 {
    ScaleBounds(scale);
    var p, most: u32 := Pow2(scale), Wrap32(0xFFFF * Pow2(scale));
    var m := if free < most then free else most;
    SmallWindow(m, scale);
    Divided(m, p)
  }

  lemma SmallWindow(m: nat, scale: nat)
    requires m <= Wrap32(0xFFFF * Pow2(scale))
    ensures Pow2(scale) > 0 && Divided(m, Pow2(scale)) <= 0xFFFF
  {
    ScaleBounds(scale);
    var p := Pow2(scale);
    if scale <= 16 {
      Unwrapped(p);
    }
    hide Pow2, Wrap32;
    assert m < 0x1_0000 * p;
    DividedBelow(m, p, 0x1_0000);
  }

  lemma Unwrapped(p: nat)
    requires p <= 0x1_0000
    ensures Wrap32(0xFFFF * p) == 0xFFFF * p
  {
  }

  /** The client is never offered more room than there is; as long as the field is not full, and
      the scale is one that RFC 7323 allows, less than one unit of the scale is held back. */
  lemma AdvertisedFits(free: u32, scale: nat)
    ensures Pow2(scale) > 0
    ensures var p, w := Pow2(scale), AdvertisedWindow(free, scale);
            w * p <= free && (scale <= 14 && w < 0xFFFF ==> free < (w + 1) * p)
  {
    ScaleBounds(scale);
    var p, w := Pow2(scale), AdvertisedWindow(free, scale);
    var most := Wrap32(0xFFFF * p);
    if scale <= 14 {
      Unwrapped(p);
    }
    hide Pow2, Wrap32, Divided;
    var m := if free < most then free else most;
    assert w == Divided(m, p);
    hide AdvertisedWindow;
    DividedRounds(m, p);
    if scale <= 14 && w < 0xFFFF {
      Steps(w + 1, 0xFFFF, p);
    }
  }

  lemma DividedRounds(m: nat, p: nat)
    requires p > 0
    ensures Divided(m, p) * p <= m < (Divided(m, p) + 1) * p
  {
    Rounded(m, p);
  }

  lemma Rounded(m: nat, p: nat)
    requires p > 0
    ensures (m / p) * p <= m < (m / p + 1) * p
  {
  }

  lemma Steps(a: nat, b: nat, p: nat)
    requires a <= b
    ensures a * p <= b * p
  {
  }

  /** The window of build_reply_tcpip: no more than the free space of the send buffer. */
  method ReplyWindow(free: u32, scale: nat) returns (win: u16)
    ensures win == AdvertisedWindow(free, scale)
  {
    var maxWin: u32 := Wrap32(0xFFFF * Pow2(scale));
    var tcpWin := if free < maxWin then free else maxWin;
    ScaleBounds(scale);
    SmallWindow(tcpWin, scale);
    win := Divided(tcpWin, Pow2(scale));
  }

  /** build_reply_tcpip, for options and payload already in the buffer. */
  method BuildReplyTcpip(buf: array<byte>, t: Tuple, flags: byte, seqNo: u32, clientSeq: u32, free: u32, scale: nat,
                         l4Len: nat, optsOff: nat)
    requires t.Valid() && optsOff <= 10
    requires HeaderLen(t) + TCP_HEADER_LEN + optsOff * 4 + l4Len <= buf.Length <= MAX_PACKET
    modifies buf
    ensures var o := HeaderLen(t) + TCP_HEADER_LEN;
            var end := o + optsOff * 4 + l4Len;
            buf[..end] == TcpPacket(t, flags, seqNo, if HasAck(flags) then clientSeq else 0, AdvertisedWindow(free, scale),
                                    optsOff, old(buf[o..end]))
  {
    var ackNo := if HasAck(flags) then clientSeq else 0;
    var win := ReplyWindow(free, scale);
    var h := HeaderLen(t);
    var o := h + TCP_HEADER_LEN;
    var end := o + optsOff * 4 + l4Len;
    ghost var b := buf[..];
    var header := TcpHeader(t, flags, seqNo, ackNo, win, optsOff);
    ghost var s := header + buf[o..end];
    assert s == header + b[o..end];
    TcpPacketIs(t, flags, seqNo, ackNo, win, optsOff, buf[o..end]);
    hide *;
    assert o == h + TCP_HEADER_LEN && |header| == TCP_HEADER_LEN && |s| == end - h && 16 + 1 < end - h;
    Put(buf, h, header);
    MakeIpHdr(buf, t, end - h);
    Built(b, h, header, IpHeader(t, end - h), end);
    assert buf[..end] == buf[..][..end];
    StoreSum(buf, t, h, end, 16, IpHeader(t, end - h), s);
  }

  /** The UDP part of handle_udp_reply, for a payload already in the buffer. */
  method BuildReplyUdp(buf: array<byte>, t: Tuple, l4Len: nat)
    requires t.Valid() && HeaderLen(t) + UDP_HEADER_LEN + l4Len <= buf.Length <= MAX_PACKET
    modifies buf
    ensures var o := HeaderLen(t) + UDP_HEADER_LEN;
            buf[..o + l4Len] == UdpPacket(t, old(buf[o..o + l4Len]))
  {
    var h := HeaderLen(t);
    var o := h + UDP_HEADER_LEN;
    var end := o + l4Len;
    ghost var b := buf[..];
    ghost var payload := buf[o..end];
    var header: bytes := t.dstPort + t.srcPort + (Be16(UDP_HEADER_LEN + l4Len) + [0, 0]);
    ghost var s := UdpBlank(t, payload);
    assert s == header + b[o..end];
    hide IpHeader, UdpBlank, Patch, StoreWord, L3Sum, WordSum, Canon, Be16;
    Put(buf, h, header);
    MakeIpHdr(buf, t, end - h);
    Built(b, h, header, IpHeader(t, end - h), end);
    assert buf[..end] == buf[..][..end];
    if t.ipver != 4 {
      StoreSum(buf, t, h, end, 6, IpHeader(t, end - h), s);
    }
  }

  lemma BlankInPlace(b: bytes, t: Tuple, h: nat, end: nat)
    requires t.Valid() && h + ICMP_HEADER_LEN <= end <= |b|
    ensures Patch(Patch(b, h + 4, t.srcPort), h + 2, [0, 0])[h..end] == IcmpBlank(t, b[h..end])
  {
    var c := Patch(b, h + 4, t.srcPort);
    var l, m := Patch(c, h + 2, [0, 0])[h..end], b[h..end];
    forall i | 0 <= i < end - h
      ensures l[i] == IcmpBlank(t, m)[i]
    {
      PatchAt(b, h + 4, t.srcPort, h + i);
      PatchAt(c, h + 2, [0, 0], h + i);
      if i >= 6 {
        assert m[6..][i - 6] == m[i];
      }
    }
  }

  lemma PatchAt(b: bytes, off: nat, x: bytes, i: nat)
    requires off + |x| <= |b| && i < |b|
    ensures Patch(b, off, x)[i] == if off <= i < off + |x| then x[i - off] else b[i]
  {
  }

  /** The packet part of handle_icmp_reply, for a message already in the buffer. */
  method BuildReplyIcmp(buf: array<byte>, t: Tuple, len: nat)
    requires t.Valid() && len >= ICMP_HEADER_LEN && HeaderLen(t) + len <= buf.Length <= MAX_PACKET
    modifies buf
    ensures var h := HeaderLen(t); buf[..h + len] == IcmpPacket(t, old(buf[h..h + len]))
  {
    var h := HeaderLen(t);
    var end := h + len;
    ghost var b := buf[..];
    ghost var s := IcmpBlank(t, b[h..end]);
    assert buf[h..end] == b[h..end];
    Put(buf, h + 4, t.srcPort);
    Put(buf, h + 2, [0, 0]);
    BlankInPlace(b, t, h, end);
    assert buf[h..end] == buf[..][h..end];
    hide IpHeader, IcmpBlank, StoreWord, L3Sum, Patch, WordSum, Canon, Be16;
    if t.ipver == 4 {
      IcmpOver4(buf, t, len, s);
    } else {
      IcmpOver6(buf, t, len, s);
    }
  }

  /** Over IPv4 the checksum covers the message alone, and comes before the IP header. */
  method IcmpOver4(buf: array<byte>, t: Tuple, len: nat, ghost s: bytes)
    requires t.Valid() && t.ipver == 4 && len >= 4 && HeaderLen(t) + len <= buf.Length <= MAX_PACKET
    requires buf[HeaderLen(t)..HeaderLen(t) + len] == s
    modifies buf
    ensures buf[..HeaderLen(t) + len] == IpHeader(t, |s|) + StoreWord(s, 2, Complement(Canon(WordSum(s))))
  {
    var h := HeaderLen(t);
    var end := h + len;
    ghost var b := buf[..];
    var sum := CalcChecksum(0, buf[h..end]);
    PutWord(buf, h + 2, Complement(sum));
    ghost var b1 := buf[..];
    assert b[..end] == b[..h] + s;
    StoredAfter(b, b[..h], s, 2, Complement(sum));
    MakeIpHdr(buf, t, len);
    assert b1[h..end] == b1[..end][h..];
    hide IpHeader, StoreWord;
    assert buf[..end] == IpHeader(t, |s|) + b1[h..end];
  }

  /** Over IPv6 it covers the pseudo-header too, which takes the length from the IP header. */
  method IcmpOver6(buf: array<byte>, t: Tuple, len: nat, ghost s: bytes)
    requires t.Valid() && t.ipver == 6 && len >= 4 && HeaderLen(t) + len <= buf.Length <= MAX_PACKET
    requires buf[HeaderLen(t)..HeaderLen(t) + len] == s
    modifies buf
    ensures buf[..HeaderLen(t) + len] == IpHeader(t, |s|) + StoreWord(s, 2, L3Sum(t, s))
  {
    var h := HeaderLen(t);
    var end := h + len;
    hide IpHeader, StoreWord, L3Sum;
    MakeIpHdr(buf, t, len);
    assert buf[..end] == IpHeader(t, |s|) + s;
    StoreSum(buf, t, h, end, 2, IpHeader(t, |s|), s);
  }

  // ------------------------------------------------------------------ parsing

  datatype PortPair = PortPair(sport: bytes, dport: bytes)

  /** The ports kept for IP fragments, by IP ID. */
  type Ports = map<u16, PortPair>

  function PortsOf(ports: Ports, id: u16): PortPair {
    if id in ports then ports[id] else PortPair([0, 0], [0, 0])
  }

  datatype Parsed = Parsed(tuple: Tuple, fragment: bool, first: bool, len: nat, ipHdrLen: nat, l4HdrLen: nat, l7Len: nat)

  /** The IP part of a packet: where its header ends, what is left without trailing bytes, and the fragment state. */
  datatype Ip = Ip(src: bytes, dst: bytes, ipver: nat, proto: nat, hdrLen: nat, len: nat, fragment: bool, first: bool, more: bool,
                   id: u16)

  function ParseIpv4(p: bytes): Option<Ip>
    requires |p| >= IPV4_HEADER_LEN
  {
    var hdrLen := p[0] % 16 * 4;
    var totLen := Word(p, 2);
    var frag := Word(p, 6);
    if |p| < hdrLen || totLen < hdrLen then None
    else
      Some(Ip(p[12..16], p[16..20], 4, p[9], hdrLen, Min(|p|, totLen), frag % 0x2000 != 0 || frag / 0x2000 % 2 == 1,
              frag % 0x2000 == 0 && frag / 0x2000 % 2 == 1, frag / 0x2000 % 2 == 1, Word(p, 4)))
  }

  predicate IsUpperLayer(proto: nat) {
    proto == IPPROTO_TCP || proto == IPPROTO_UDP || proto == IPPROTO_ICMP || proto == IPPROTO_ICMPV6
  }

  function ParseIpv6(p: bytes): Option<Ip> {
    if |p| < IPV6_HEADER_LEN || !IsUpperLayer(p[6]) then None
    else
      Some(Ip(p[8..24], p[24..40], 6, if p[6] == IPPROTO_ICMPV6 then IPPROTO_ICMP else p[6], IPV6_HEADER_LEN,
              Min(|p|, Word(p, 4) + IPV6_HEADER_LEN), false, false, false, 0))
  }

  function ParseIp(p: bytes): Option<Ip> {
    if |p| < IPV4_HEADER_LEN then None
    else if p[0] / 16 == 4 then ParseIpv4(p)
    else if p[0] / 16 == 6 then ParseIpv6(p)
    else None
  }

  /** The transport header: its length and the two ports, or the code returned for a packet that is refused. */
  datatype L4 = L4(hdrLen: nat, sport: bytes, dport: bytes) | Refused(rv: int)

  predicate IsEcho(kind: byte) {
    kind == ICMP_ECHO || kind == ICMP_ECHOREPLY || kind == ICMPv6_ECHO || kind == ICMPv6_ECHOREPLY
  }

  predicate IsRequest(kind: byte) {
    kind == ICMP_ECHO || kind == ICMPv6_ECHO
  }

  function ParseL4(p: bytes, ip: Ip): L4
    requires ip.len <= |p|
  {
    var h := ip.hdrLen;
    if ip.proto == IPPROTO_TCP then
      if ip.len < h + TCP_HEADER_LEN || ip.len < h + p[h + 12] / 16 * 4 then Refused(-1)
      else L4(p[h + 12] / 16 * 4, p[h..h + 2], p[h + 2..h + 4])
    else if ip.proto == IPPROTO_UDP then
      if ip.len < h + UDP_HEADER_LEN then Refused(-1) else L4(UDP_HEADER_LEN, p[h..h + 2], p[h + 2..h + 4])
    else if ip.proto == IPPROTO_ICMP then
      if ip.len < h + ICMP_HEADER_LEN then Refused(-1)
      else if !IsEcho(p[h]) then Refused(-2)
      else if IsRequest(p[h]) then L4(ICMP_HEADER_LEN, p[h + 4..h + 6], [0, 0])
      else L4(ICMP_HEADER_LEN, [0, 0], p[h + 4..h + 6])
    else Refused(-3)
  }

  function Accept(ip: Ip, hdrLen: nat, sport: bytes, dport: bytes): Parsed
    requires ip.hdrLen + hdrLen <= ip.len
  {
    Parsed(Tuple(ip.src, ip.dst, sport, dport, ip.ipver, ip.proto), ip.fragment, ip.first, ip.len, ip.hdrLen, hdrLen,
           ip.len - ip.hdrLen - hdrLen)
  }

  /** The result of parsing: the packet or the code returned, and the ports kept for fragments. */
  datatype ParseOutcome = ParseOutcome(r: ParseResult, ports: Ports)
  datatype ParseResult = Packet(p: Parsed) | Error(rv: int)

  /** zdtun_parse_pkt. */
  function ParsePkt(p: bytes, ports: Ports): ParseOutcome
    requires |p| <= MAX_PACKET
  {
    var o := ParseIp(p);
    if o.None? then ParseOutcome(Error(-1), ports)
    else
      var ip := o.value;
      if ip.fragment && !ip.first then
        var pp := PortsOf(ports, ip.id);
        ParseOutcome(Packet(Accept(ip, 0, pp.sport, pp.dport)),
                     if ip.more then ports else ports[ip.id := PortPair([0, 0], [0, 0])])
      else
        match ParseL4(p, ip)
        case Refused(rv) => ParseOutcome(Error(rv), ports)
        case L4(hdrLen, sport, dport) =>
          ParseOutcome(Packet(Accept(ip, hdrLen, sport, dport)),
                       if ip.first then ports[ip.id := PortPair(sport, dport)] else ports)
  }

  /** The parser with the ports it keeps for fragments. */
  class Parser {
    var id2ports: Ports

    constructor ()
      ensures id2ports == map[]
    {
      id2ports := map[];
    }

    /** The IP header: version, lengths, addresses and the fragment flags are read one by one. */
    method ParseL3(buf: bytes) returns (ok: bool, src: bytes, dst: bytes, ipver: nat, ipproto: nat, ipHdrLen: nat, pktLen: nat,
                                        isFragment: bool, isFirst: bool, more: bool, id: u16)
      requires |buf| <= MAX_PACKET
      ensures ok <==> ParseIp(buf).Some?
      ensures ok ==> ipHdrLen <= pktLen <= |buf|
      ensures ok ==> ParseIp(buf) == Some(Ip(src, dst, ipver, ipproto, ipHdrLen, pktLen, isFragment, isFirst, more, id))
    {
      ok, src, dst, ipver, ipproto, ipHdrLen, pktLen := false, [], [], 0, 0, 0, |buf|;
      isFragment, isFirst, more, id := false, false, false, 0;
      if pktLen < IPV4_HEADER_LEN {
        return;
      }
      ipver := buf[0] / 16;
      if ipver != 4 && ipver != 6 {
        return;
      }
      if ipver == 4 {
        ipHdrLen := buf[0] % 16 * 4;
        if pktLen < ipHdrLen {
          return;
        }
        var totLen := buf[2] as int * 256 + buf[3];
        if totLen < ipHdrLen {
          return;
        }
        if totLen < pktLen {
          pktLen := totLen;
        }
        src, dst, ipproto := buf[12..16], buf[16..20], buf[9];
        var fragOff := buf[6] as int * 256 + buf[7];
        more := fragOff / 0x2000 % 2 == 1;
        if fragOff % 0x2000 != 0 {
          isFragment := true;
        } else if more {
          isFragment, isFirst := true, true;
        }
        id := buf[4] as int * 256 + buf[5];
      } else {
        if pktLen < IPV6_HEADER_LEN {
          return;
        }
        ipHdrLen := IPV6_HEADER_LEN;
        var nextHdr := buf[6];
        if nextHdr != IPPROTO_TCP && nextHdr != IPPROTO_UDP && nextHdr != IPPROTO_ICMP && nextHdr != IPPROTO_ICMPV6 {
          return;
        }
        var end := buf[4] as int * 256 + buf[5] + ipHdrLen;
        if end < pktLen {
          pktLen := end;
        }
        src, dst := buf[8..24], buf[24..40];
        ipproto := if nextHdr != IPPROTO_ICMPV6 then nextHdr else IPPROTO_ICMP;
      }
      ok := true;
    }

    /** The transport header behind the IP header, of the `pktLen` bytes of the IP packet; `rv` is the code returned. */
    method ParseTransport(buf: bytes, ipproto: nat, l4: nat, pktLen: nat, ghost ip: Ip)
      returns (rv: int, l4HdrLen: nat, srcPort: bytes, dstPort: bytes)
      requires pktLen <= |buf| && ip.proto == ipproto && ip.hdrLen == l4 && ip.len == pktLen
      ensures rv == (if ParseL4(buf, ip).Refused? then ParseL4(buf, ip).rv else 0)
      ensures ParseL4(buf, ip).L4? <==> rv == 0
      ensures rv == 0 ==> ParseL4(buf, ip) == L4(l4HdrLen, srcPort, dstPort) && l4 + l4HdrLen <= pktLen
    {
      rv, l4HdrLen, srcPort, dstPort := 0, 0, [0, 0], [0, 0];
      if ipproto == IPPROTO_TCP {
        if pktLen < l4 + TCP_HEADER_LEN {
          return -1, 0, srcPort, dstPort;
        }
        var tcpHeaderLen := buf[l4 + 12] / 16 * 4;
        if pktLen < l4 + tcpHeaderLen {
          return -1, 0, srcPort, dstPort;
        }
        l4HdrLen := tcpHeaderLen;
        srcPort, dstPort := buf[l4..l4 + 2], buf[l4 + 2..l4 + 4];
      } else if ipproto == IPPROTO_UDP {
        if pktLen < l4 + UDP_HEADER_LEN {
          return -1, 0, srcPort, dstPort;
        }
        l4HdrLen := 8;
        srcPort, dstPort := buf[l4..l4 + 2], buf[l4 + 2..l4 + 4];
      } else if ipproto == IPPROTO_ICMP {
        if pktLen < l4 + ICMP_HEADER_LEN {
          return -1, 0, srcPort, dstPort;
        }
        var kind := buf[l4];
        if kind != ICMP_ECHO && kind != ICMP_ECHOREPLY && kind != ICMPv6_ECHO && kind != ICMPv6_ECHOREPLY {
          return -2, 0, srcPort, dstPort;
        }
        l4HdrLen := 8;
        if kind == ICMP_ECHO || kind == ICMPv6_ECHO {
          srcPort := buf[l4 + 4..l4 + 6];
        } else {
          dstPort := buf[l4 + 4..l4 + 6];
        }
      } else {
        rv := -3;
      }
    }

    /** zdtun_parse_pkt: every byte is read within the packet. */
    method Parse(buf: bytes) returns (r: ParseResult)
      requires |buf| <= MAX_PACKET
      modifies this
      ensures ParseOutcome(r, id2ports) == ParsePkt(buf, old(id2ports))
    {
      hide ParseIp, ParseL4;
      var ok, src, dst, ipver, ipproto, ipHdrLen, pktLen, isFragment, isFirst, more, id := ParseL3(buf);
      if !ok {
        return Error(-1);
      }
      var l4HdrLen, srcPort, dstPort;
      if isFragment && !isFirst {
        var ports := PortsOf(id2ports, id);
        l4HdrLen, srcPort, dstPort := 0, ports.sport, ports.dport;
        if !more {
          id2ports := id2ports[id := PortPair([0, 0], [0, 0])];
        }
      } else {
        var rv;
        rv, l4HdrLen, srcPort, dstPort := ParseTransport(buf, ipproto, ipHdrLen, pktLen, ParseIp(buf).value);
        if rv != 0 {
          return Error(rv);
        }
        if isFirst {
          id2ports := id2ports[id := PortPair(srcPort, dstPort)];
        }
      }
      r := Packet(Parsed(Tuple(src, dst, srcPort, dstPort, ipver, ipproto), isFragment, isFirst, pktLen, ipHdrLen, l4HdrLen,
                         pktLen - ipHdrLen - l4HdrLen));
    }
  }

  /** What is accepted lies within the packet: headers and payload add up to its length without trailing bytes. */
  lemma ParsedWithinPacket(p: bytes, ports: Ports)
    requires |p| <= MAX_PACKET && ParsePkt(p, ports).r.Packet?
    ensures var q := ParsePkt(p, ports).r.p;
            q.ipHdrLen + q.l4HdrLen + q.l7Len == q.len <= |p| && (q.first ==> q.fragment)
  {
  }

  /** Bytes after the end of the IP packet make no difference. */
  lemma TrailingBytesIgnored(p: bytes, junk: bytes, ports: Ports)
    requires |p| + |junk| <= MAX_PACKET && ParsePkt(p, ports).r.Packet?
    requires var q := ParsePkt(p, ports).r.p;
             q.len < |p| || (q.len == |p| == if q.tuple.ipver == 4 then Word(p, 2) else Word(p, 4) + IPV6_HEADER_LEN)
    ensures ParsePkt(p + junk, ports) == ParsePkt(p, ports)
  {
    var e := p + junk;
    assert forall i :: 0 <= i < |p| ==> e[i] == p[i];
    IpPrefix(p, junk);
    var ip := ParseIp(p).value;
    if !(ip.fragment && !ip.first) {
      L4Prefix(p, junk, ip);
    }
    hide ParseIp, ParseL4;
  }

  lemma IpPrefix(p: bytes, junk: bytes)
    requires |p| + |junk| <= MAX_PACKET && ParseIp(p).Some?
    requires var ip := ParseIp(p).value;
             ip.len < |p| || (ip.len == |p| == if ip.ipver == 4 then Word(p, 2) else Word(p, 4) + IPV6_HEADER_LEN)
    ensures ParseIp(p + junk) == ParseIp(p)
  {
    var e := p + junk;
    assert forall i :: 0 <= i < |p| ==> e[i] == p[i];
    assert |p| >= 20 && e[12..16] == p[12..16] && e[16..20] == p[16..20];
    if |p| >= 40 {
      assert e[8..24] == p[8..24] && e[24..40] == p[24..40];
    }
  }

  lemma L4Prefix(p: bytes, junk: bytes, ip: Ip)
    requires ip.len <= |p|
    ensures ParseL4(p + junk, ip) == ParseL4(p, ip)
  {
    var e, h := p + junk, ip.hdrLen;
    if h + 8 <= ip.len {
      assert e[h..h + 2] == p[h..h + 2] && e[h + 2..h + 4] == p[h + 2..h + 4] && e[h + 4..h + 6] == p[h + 4..h + 6];
    }
  }

  /** A fragment that is not the first gets the ports of the first fragment with its IP ID, and the last one forgets
      them. */
  lemma FragmentsShareAPort(first: bytes, next: bytes, ports: Ports)
    requires |first| <= MAX_PACKET && |next| <= MAX_PACKET
    requires ParseIp(first).Some? && ParseIp(first).value.first && ParsePkt(first, ports).r.Packet?
    requires ParseIp(next).Some? && ParseIp(next).value.fragment && !ParseIp(next).value.first
    requires ParseIp(next).value.id == ParseIp(first).value.id
    ensures var a := ParsePkt(first, ports);
            var b := ParsePkt(next, a.ports);
            && b.r.Packet?
            && b.r.p.tuple.srcPort == a.r.p.tuple.srcPort && b.r.p.tuple.dstPort == a.r.p.tuple.dstPort
            && (!ParseIp(next).value.more ==> PortsOf(b.ports, ParseIp(first).value.id) == PortPair([0, 0], [0, 0]))
  {
    hide ParseIp, ParseL4;
  }

  // ------------------------------------------------------------------ what is built is parsed back

  function IpBuilt(t: Tuple, l3Len: nat): Ip {
    Ip(t.dstIp, t.srcIp, t.ipver, t.proto, HeaderLen(t), HeaderLen(t) + l3Len, false, false, false, 0)
  }

  /** The IP header built for `t` reads back as `t` with its addresses swapped, and no fragment. */
  lemma HeaderParses(t: Tuple, segment: bytes)
    requires t.Valid() && HeaderLen(t) + |segment| <= MAX_PACKET
    ensures ParseIp(IpHeader(t, |segment|) + segment) == Some(IpBuilt(t, |segment|))
  {
    var h := IpHeader(t, |segment|);
    var p := h + segment;
    assert forall i :: 0 <= i < |h| ==> p[i] == h[i];
    hide WordSum, Canon, Complement;
    if t.ipver == 4 {
      assert p[12..16] == t.dstIp && p[16..20] == t.srcIp;
      assert p[2] == (|segment| + 20) / 256 && p[3] == (|segment| + 20) % 256;
      assert Word(p, 2) == |segment| + 20 && Word(p, 6) == 0x4000;
    } else {
      assert p[8..24] == t.dstIp && p[24..40] == t.srcIp;
      assert Word(p, 4) == |segment|;
    }
  }

  /** The packet is accepted with the tuple `q`, no fragment and its own lengths, whatever the fragment table holds. */
  predicate AcceptedAs(q: Tuple, packet: bytes, l4HdrLen: nat, l7Len: nat) {
    |packet| <= MAX_PACKET &&
    var h := HeaderLen(q);
    |packet| == h + l4HdrLen + l7Len &&
    ParsePkt(packet, map[]) == ParseOutcome(Packet(Parsed(q, false, false, |packet|, h, l4HdrLen, l7Len)), map[])
  }

  /** A packet built for the client of `t` is accepted with the swapped tuple. */
  predicate Accepted(t: Tuple, packet: bytes, l4HdrLen: nat, l7Len: nat) {
    AcceptedAs(t.Swapped(), packet, l4HdrLen, l7Len)
  }

  /** A segment whose header reads back is accepted behind the IP header built for it. */
  lemma BuiltParses(t: Tuple, segment: bytes, hdrLen: nat, sport: bytes, dport: bytes)
    requires t.Valid() && HeaderLen(t) + |segment| <= MAX_PACKET && hdrLen <= |segment|
    requires ParseL4(IpHeader(t, |segment|) + segment, IpBuilt(t, |segment|)) == L4(hdrLen, sport, dport)
    ensures AcceptedAs(Tuple(t.dstIp, t.srcIp, sport, dport, t.ipver, t.proto), IpHeader(t, |segment|) + segment, hdrLen,
                       |segment| - hdrLen)
  {
    HeaderParses(t, segment);
    hide ParseIp, ParseL4, IpHeader;
  }

  lemma AnyPorts(q: Tuple, packet: bytes, l4HdrLen: nat, l7Len: nat, ports: Ports)
    requires AcceptedAs(q, packet, l4HdrLen, l7Len)
    ensures ParsePkt(packet, ports) ==
            ParseOutcome(Packet(Parsed(q, false, false, |packet|, HeaderLen(q), l4HdrLen, l7Len)), ports)
  {
    hide ParseIp, ParseL4;
  }

  lemma AfterIp(ip: bytes, s: bytes)
    requires |s| >= 4
    ensures (ip + s)[|ip|..|ip| + 2] == s[..2] && (ip + s)[|ip| + 2..|ip| + 4] == s[2..4]
  {
  }

  lemma TwoPorts(a: bytes, b: bytes, rest: bytes)
    requires |a| == |b| == 2
    ensures (a + b + rest)[..2] == a && (a + b + rest)[2..4] == b
  {
  }

  lemma TcpStart(t: Tuple, flags: byte, seqNo: u32, ackNo: u32, win: u16, optsOff: nat, rest: bytes)
    requires t.Valid() && optsOff <= 10
    ensures var s := TcpHeader(t, flags, seqNo, ackNo, win, optsOff) + rest;
            s[..2] == t.dstPort && s[2..4] == t.srcPort && s[12] == (5 + optsOff) * 16
  {
    var header := TcpHeader(t, flags, seqNo, ackNo, win, optsOff);
    var more := Be32(seqNo) + Be32(ackNo) + [(5 + optsOff) * 16, flags] + Be16(win) + [0, 0, 0, 0];
    TwoPorts(t.dstPort, t.srcPort, more);
    assert header[12] == more[8] == (5 + optsOff) * 16;
    assert (header + rest)[..2] == header[..2] && (header + rest)[2..4] == header[2..4];
  }

  lemma TcpRoundTrip(t: Tuple, flags: byte, seqNo: u32, ackNo: u32, win: u16, optsOff: nat, rest: bytes)
    requires t.Valid() && t.proto == IPPROTO_TCP
    requires 4 * optsOff <= Min(40, |rest|) && HeaderLen(t) + TCP_HEADER_LEN + |rest| <= MAX_PACKET
    ensures Accepted(t, TcpPacket(t, flags, seqNo, ackNo, win, optsOff, rest), TCP_HEADER_LEN + 4 * optsOff, |rest| - 4 * optsOff)
  {
    var s := TcpHeader(t, flags, seqNo, ackNo, win, optsOff) + rest;
    var w := L3Sum(t, s);
    TcpStart(t, flags, seqNo, ackNo, win, optsOff, rest);
    StoredKeeps(s, 16, w, 12);
    hide TcpHeader, L3Sum, IpHeader, AcceptedAs, ParsePkt, ParseIp, ParseL4, StoreWord;
    var segment := StoreWord(s, 16, w);
    TcpReads(IpHeader(t, |s|), segment, IpBuilt(t, |s|), optsOff, t.dstPort, t.srcPort);
    BuiltParses(t, segment, TCP_HEADER_LEN + 4 * optsOff, t.dstPort, t.srcPort);
  }

  lemma StoredKeeps(s: bytes, off: nat, w: u16, i: nat)
    requires off + 1 < |s| && 4 <= off && i < |s| && !(off <= i <= off + 1)
    ensures var r := StoreWord(s, off, w); |r| == |s| && r[i] == s[i] && r[..2] == s[..2] && r[2..4] == s[2..4]
  {
  }

  lemma TcpReads(head: bytes, segment: bytes, ip: Ip, optsOff: nat, sport: bytes, dport: bytes)
    requires |segment| >= TCP_HEADER_LEN + 4 * optsOff && optsOff <= 10 && segment[12] == (5 + optsOff) * 16
    requires segment[..2] == sport && segment[2..4] == dport
    requires ip.hdrLen == |head| && ip.len == |head| + |segment| && ip.proto == IPPROTO_TCP
    ensures ParseL4(head + segment, ip) == L4(TCP_HEADER_LEN + 4 * optsOff, sport, dport)
  {
    AfterIp(head, segment);
  }

  lemma UdpReads(head: bytes, segment: bytes, ip: Ip, sport: bytes, dport: bytes)
    requires |segment| >= UDP_HEADER_LEN && segment[..2] == sport && segment[2..4] == dport
    requires ip.hdrLen == |head| && ip.len == |head| + |segment| && ip.proto == IPPROTO_UDP
    ensures ParseL4(head + segment, ip) == L4(UDP_HEADER_LEN, sport, dport)
  {
    AfterIp(head, segment);
  }

  lemma UdpRoundTrip(t: Tuple, payload: bytes)
    requires t.Valid() && t.proto == IPPROTO_UDP && HeaderLen(t) + UDP_HEADER_LEN + |payload| <= MAX_PACKET
    ensures Accepted(t, UdpPacket(t, payload), UDP_HEADER_LEN, |payload|)
  {
    var s := UdpBlank(t, payload);
    var w := L3Sum(t, s);
    TwoPorts(t.dstPort, t.srcPort, Be16(UDP_HEADER_LEN + |payload|) + [0, 0] + payload);
    StoredKeeps(s, 6, w, 0);
    hide UdpBlank, L3Sum, IpHeader, AcceptedAs, ParsePkt, ParseIp, ParseL4, StoreWord;
    var segment := if t.ipver == 4 then s else StoreWord(s, 6, w);
    UdpReads(IpHeader(t, |s|), segment, IpBuilt(t, |s|), t.dstPort, t.srcPort);
    BuiltParses(t, segment, UDP_HEADER_LEN, t.dstPort, t.srcPort);
  }

  /** The tuple of the ICMP packets to the client of `t`: an echo request carries the echo ID as its source port, an echo
      reply as its destination port. */
  function IcmpReplyTuple(t: Tuple, request: bool): Tuple {
    Tuple(t.dstIp, t.srcIp, if request then t.srcPort else [0, 0], if request then [0, 0] else t.srcPort, t.ipver, t.proto)
  }

  lemma IcmpParses(t: Tuple, m: bytes)
    requires t.Valid() && t.Transport() == Icmp
    requires |m| >= ICMP_HEADER_LEN && IsEcho(m[0]) && HeaderLen(t) + |m| <= MAX_PACKET
    ensures AcceptedAs(IcmpReplyTuple(t, IsRequest(m[0])), IcmpPacket(t, m), ICMP_HEADER_LEN, |m| - ICMP_HEADER_LEN)
  {
    var s := IcmpBlank(t, m);
    var w := if t.ipver == 4 then Complement(Canon(WordSum(s))) else L3Sum(t, s);
    IcmpStart(t, m, w);
    assert IcmpPacket(t, m) == IpHeader(t, |s|) + StoreWord(s, 2, w);
    hide *;
    IcmpBehind(t, StoreWord(s, 2, w), m[0]);
  }

  /** An echo message behind its IP header is accepted. */
  lemma IcmpBehind(t: Tuple, segment: bytes, kind: byte)
    requires t.Valid() && t.Transport() == Icmp && HeaderLen(t) + |segment| <= MAX_PACKET
    requires |segment| >= ICMP_HEADER_LEN && segment[0] == kind && IsEcho(kind) && segment[4..6] == t.srcPort
    ensures AcceptedAs(IcmpReplyTuple(t, IsRequest(kind)), IpHeader(t, |segment|) + segment, ICMP_HEADER_LEN,
                       |segment| - ICMP_HEADER_LEN)
  {
    hide IpHeader, ParsePkt, ParseIp, ParseL4, AcceptedAs;
    var q := IcmpReplyTuple(t, IsRequest(kind));
    EchoReads(IpHeader(t, |segment|), segment, IpBuilt(t, |segment|), kind, t.srcPort);
    BuiltParses(t, segment, ICMP_HEADER_LEN, q.srcPort, q.dstPort);
  }

  lemma IcmpStart(t: Tuple, m: bytes, w: u16)
    requires t.Valid() && |m| >= ICMP_HEADER_LEN
    ensures var s := StoreWord(IcmpBlank(t, m), 2, w); |s| == |m| && s[0] == m[0] && s[4..6] == t.srcPort
  {
  }

  lemma EchoReads(head: bytes, segment: bytes, ip: Ip, kind: byte, id: bytes)
    requires |segment| >= ICMP_HEADER_LEN && segment[0] == kind && IsEcho(kind) && segment[4..6] == id
    requires ip.hdrLen == |head| && ip.len == |head| + |segment| && ip.proto == IPPROTO_ICMP
    ensures ParseL4(head + segment, ip) ==
            L4(ICMP_HEADER_LEN, if IsRequest(kind) then id else [0, 0], if IsRequest(kind) then [0, 0] else id)
  {
    assert (head + segment)[|head| + 4..|head| + 6] == segment[4..6];
  }

  lemma OneTuple(q: Tuple, r: Tuple, packet: bytes, l4HdrLen: nat, l7Len: nat)
    requires AcceptedAs(q, packet, l4HdrLen, l7Len)
    ensures AcceptedAs(r, packet, l4HdrLen, l7Len) <==> r == q
  {
    hide ParsePkt;
  }

  /** Every ICMP message built for the client is accepted, so the parser never fails on it; it is accepted under the
      swapped tuple of its connection if and only if that was opened by an echo request or with echo ID 0, and the message
      is a reply or the ID is 0. */
  lemma IcmpRoundTrip(t: Tuple, m: bytes)
    requires t.Valid() && t.Transport() == Icmp
    requires |m| >= ICMP_HEADER_LEN && IsEcho(m[0]) && HeaderLen(t) + |m| <= MAX_PACKET
    ensures AcceptedAs(IcmpReplyTuple(t, IsRequest(m[0])), IcmpPacket(t, m), ICMP_HEADER_LEN, |m| - ICMP_HEADER_LEN)
    ensures Accepted(t, IcmpPacket(t, m), ICMP_HEADER_LEN, |m| - ICMP_HEADER_LEN) <==>
              t.dstPort == [0, 0] && (IsRequest(m[0]) ==> t.srcPort == [0, 0])
  {
    IcmpParses(t, m);
    hide AcceptedAs, IcmpPacket;
    OneTuple(IcmpReplyTuple(t, IsRequest(m[0])), t.Swapped(), IcmpPacket(t, m), ICMP_HEADER_LEN, |m| - ICMP_HEADER_LEN);
  }

  /** The tuple of an ICMP connection stays the one of its first packet if and only if that is an echo request or has echo
      ID 0: an echo reply has its ID written over the source port. */
  lemma IcmpRewrites(p: bytes, ports: Ports)
    requires |p| <= MAX_PACKET && ParsePkt(p, ports).r.Packet?
    requires var q := ParsePkt(p, ports).r.p; !q.fragment && q.tuple.Transport() == Icmp
    ensures var q := ParsePkt(p, ports).r.p;
            var h := q.ipHdrLen;
            && h + ICMP_HEADER_LEN <= |p| && q.tuple.EchoId() == p[h + 4..h + 6]
            && (q.tuple.Rewritten() == q.tuple <==> IsRequest(p[h]) || p[h + 4..h + 6] == [0, 0])
  {
    ParsedWithinPacket(p, ports);
    hide ParseIp;
  }

  // ------------------------------------------------------------------ what the client reads in it

  function Dword(p: bytes, i: nat): u32
    requires i + 3 < |p|
  {
    Word(p, i) as int * 0x1_0000 + Word(p, i + 2)
  }

  lemma WordReads(p: bytes, i: nat, x: u16)
    requires i + 1 < |p| && p[i..i + 2] == Be16(x)
    ensures Word(p, i) == x
  {
    assert p[i..i + 2][0] == p[i] && p[i..i + 2][1] == p[i + 1];
  }

  lemma DwordReads(p: bytes, i: nat, x: u32)
    requires i + 3 < |p| && p[i..i + 4] == Be32(x)
    ensures Dword(p, i) == x
  {
    assert p[i..i + 2] == p[i..i + 4][..2] == Be16(x / 0x1_0000);
    assert p[i + 2..i + 4] == p[i..i + 4][2..] == Be16(x % 0x1_0000);
    WordReads(p, i, x / 0x1_0000);
    WordReads(p, i + 2, x % 0x1_0000);
  }

  /** The fixed fields of the IPv4 header: no options, its length, don't-fragment, 64 hops. */
  lemma Ipv4Fields(t: Tuple, l3Len: nat)
    requires t.Valid() && t.ipver == 4 && l3Len + IPV4_HEADER_LEN <= MAX_PACKET
    ensures var h := IpHeader(t, l3Len);
            && h[0] == 0x45 && Word(h, 2) == l3Len + 20 && Word(h, 4) == 0 && Word(h, 6) == 0x4000 && h[8] == 64
            && h[9] == t.proto && h[12..16] == t.dstIp && h[16..20] == t.srcIp
  {
    hide WordSum, Canon;
    var h := IpHeader(t, l3Len);
    assert h[2..4] == Be16(l3Len + 20);
    WordReads(h, 2, l3Len + 20);
  }

  /** Those of the IPv6 header: neither traffic class nor flow label, the payload length, 64 hops. */
  lemma Ipv6Fields(t: Tuple, l3Len: nat)
    requires t.Valid() && t.ipver == 6 && l3Len + IPV6_HEADER_LEN <= MAX_PACKET
    ensures var h := IpHeader(t, l3Len);
            && |h| == 40 && h[..4] == [0x60, 0, 0, 0] && Word(h, 4) == l3Len && h[6] == (if t.proto == 1 then 58 else t.proto)
            && h[7] == 64 && h[8..24] == t.dstIp && h[24..40] == t.srcIp
  {
    var h := IpHeader(t, l3Len);
    assert h[4..6] == Be16(l3Len);
    WordReads(h, 4, l3Len);
  }

  lemma TcpHeaderParts(t: Tuple, flags: byte, seqNo: u32, ackNo: u32, win: u16, optsOff: nat)
    requires t.Valid() && optsOff <= 10
    ensures var h := TcpHeader(t, flags, seqNo, ackNo, win, optsOff);
            && h[4..8] == Be32(seqNo) && h[8..12] == Be32(ackNo) && h[12] == (5 + optsOff) * 16 && h[13] == flags
            && h[14..16] == Be16(win) && h[18..20] == [0, 0]
  {
    hide Be16, Be32;
    var a, b, c, d, e := Be32(seqNo), Be32(ackNo), [(5 + optsOff) * 16, flags], Be16(win), [0, 0, 0, 0];
    assert |a| == 4 && |b| == 4 && |d| == 2 by { WordLengths(seqNo, ackNo, win); }
    var h := TcpHeader(t, flags, seqNo, ackNo, win, optsOff);
    assert h == t.dstPort + t.srcPort + (a + b + c + d + e);
  }

  lemma WordLengths(x: u32, y: u32, z: u16)
    ensures |Be32(x)| == 4 && |Be32(y)| == 4 && |Be16(z)| == 2
  {
  }

  /** The client reads the sequence numbers, flags and window put in, and behind the header the options and payload. */
  lemma TcpFields(t: Tuple, flags: byte, seqNo: u32, ackNo: u32, win: u16, optsOff: nat, rest: bytes)
    requires t.Valid() && 4 * optsOff <= Min(40, |rest|) && HeaderLen(t) + TCP_HEADER_LEN + |rest| <= MAX_PACKET
    ensures var s := TcpPacket(t, flags, seqNo, ackNo, win, optsOff, rest)[HeaderLen(t)..];
            && |s| == TCP_HEADER_LEN + |rest| && s[..2] == t.dstPort && s[2..4] == t.srcPort
            && Dword(s, 4) == seqNo && Dword(s, 8) == ackNo && s[12] == (5 + optsOff) * 16 && s[13] == flags
            && Word(s, 14) == win && Word(s, 18) == 0 && s[20..] == rest
  {
    var h := TcpHeader(t, flags, seqNo, ackNo, win, optsOff);
    var s0 := h + rest;
    var w := L3Sum(t, s0);
    var s := StoreWord(s0, 16, w);
    TcpStart(t, flags, seqNo, ackNo, win, optsOff, rest);
    TcpHeaderParts(t, flags, seqNo, ackNo, win, optsOff);
    assert TcpPacket(t, flags, seqNo, ackNo, win, optsOff, rest)[HeaderLen(t)..] == s;
    hide TcpHeader, L3Sum, IpHeader, Be16, Be32, TcpPacket;
    assert s[..2] == s0[..2] && s[2..4] == s0[2..4];
    assert s[4..8] == h[4..8] && s[8..12] == h[8..12] && s[14..16] == h[14..16] && s[13] == h[13];
    assert s[18] == h[18..20][0] && s[19] == h[18..20][1];
    DwordReads(s, 4, seqNo);
    DwordReads(s, 8, ackNo);
    WordReads(s, 14, win);
  }

  lemma UdpFields(t: Tuple, payload: bytes)
    requires t.Valid() && HeaderLen(t) + UDP_HEADER_LEN + |payload| <= MAX_PACKET
    ensures var s := UdpPacket(t, payload)[HeaderLen(t)..];
            && |s| == 8 + |payload| && s[..2] == t.dstPort && s[2..4] == t.srcPort
            && Word(s, 4) == |s| && (t.ipver == 4 ==> Word(s, 6) == 0) && s[8..] == payload
  {
    var s0 := UdpBlank(t, payload);
    var w := L3Sum(t, s0);
    var s := if t.ipver == 4 then s0 else StoreWord(s0, 6, w);
    TwoPorts(t.dstPort, t.srcPort, Be16(UDP_HEADER_LEN + |payload|) + [0, 0] + payload);
    assert s0[4..6] == Be16(UDP_HEADER_LEN + |payload|) && s0[8..] == payload;
    assert UdpPacket(t, payload)[HeaderLen(t)..] == s;
    hide UdpBlank, L3Sum, IpHeader, Be16, UdpPacket;
    assert s[..2] == s0[..2] && s[2..4] == s0[2..4] && s[4..6] == s0[4..6] && s[8..] == s0[8..];
    WordReads(s, 4, UDP_HEADER_LEN + |payload|);
  }

  /** The ICMP message goes out as the kernel returned it but for the echo ID and the checksum. */
  lemma IcmpFields(t: Tuple, m: bytes)
    requires t.Valid() && |m| >= ICMP_HEADER_LEN && HeaderLen(t) + |m| <= MAX_PACKET
    ensures var s := IcmpPacket(t, m)[HeaderLen(t)..];
            |s| == |m| && s[..2] == m[..2] && s[4..6] == t.srcPort && s[6..] == m[6..]
  {
    var s0 := IcmpBlank(t, m);
    var w := if t.ipver == 4 then Complement(Canon(WordSum(s0))) else L3Sum(t, s0);
    assert s0[..2] == m[..2] && s0[4..6] == t.srcPort && s0[6..] == m[6..];
    assert IcmpPacket(t, m)[HeaderLen(t)..] == StoreWord(s0, 2, w);
    hide IcmpBlank, L3Sum, IpHeader, IcmpPacket, WordSum, Canon;
  }

  // ------------------------------------------------------------------ checksums

  /** The receiver's test of section 3.3 of RFC 1071: the words sum up to 0xFFFF, in whichever byte order. */
  predicate Verifies(b: bytes) {
    Canon(WordSum(b)) == 0xFFFF && Canon(NetworkSum(b)) == 0xFFFF
  }

  lemma EitherOrder(b: bytes)
    requires Canon(WordSum(b)) == 0xFFFF
    ensures Verifies(b)
  {
    ByteOrderIndependence(b);
  }

  /** The pseudo-header as it is summed has the sum of the standard one. */
  lemma PseudoIsStandard(t: Tuple, l3Len: nat, segment: bytes)
    requires t.Valid() && l3Len <= MAX_PACKET
    ensures WordSum(Pseudo(t, l3Len) + segment) == WordSum(StandardPseudo(t, l3Len) + segment)
  {
    WordSumConcat(Pseudo(t, l3Len), segment);
    WordSumConcat(StandardPseudo(t, l3Len), segment);
    if t.ipver == 6 {
      var a: bytes, b: bytes := Be16(l3Len) + [0, 0, 0, 0, 0, t.Next()], [0, 0] + Be16(l3Len) + [0, 0, 0, t.Next()];
      WordSumConcat(t.dstIp + t.srcIp, a);
      WordSumConcat(t.dstIp + t.srcIp, b);
      EightBytes(a);
      EightBytes(b);
    }
  }

  lemma WordSumStep(a: bytes)
    requires |a| >= 2
    ensures WordSum(a) == a[0] as int + 256 * (a[1] as int) + WordSum(a[2..])
  {
  }

  lemma EightBytes(a: bytes)
    requires |a| == 8
    ensures WordSum(a) == (a[0] as int + a[2] as int + a[4] as int + a[6] as int)
                          + 256 * (a[1] as int + a[3] as int + a[5] as int + a[7] as int)
  {
    assert a[2..][2..] == a[4..] && a[4..][2..] == a[6..] && a[6..][2..] == [];
    WordSumStep(a);
    WordSumStep(a[2..]);
    WordSumStep(a[4..]);
    WordSumStep(a[6..]);
  }

  /** The IPv4 header, and every TCP, UDP-over-IPv6 and ICMPv6 segment with its standard pseudo-header, verify. */
  lemma Ipv4HeaderVerifies(t: Tuple, l3Len: nat)
    requires t.Valid() && t.ipver == 4 && l3Len + IPV4_HEADER_LEN <= MAX_PACKET
    ensures Verifies(IpHeader(t, l3Len))
  {
    var h := Ipv4Blank(t, l3Len);
    hide Ipv4Blank, WordSum;
    assert [] + h == h && forall x: bytes :: [] + x == x;
    StoredComplementVerifies([], h, 10);
    EitherOrder(IpHeader(t, l3Len));
  }

  lemma SegmentVerifies(t: Tuple, s: bytes, off: nat)
    requires t.Valid() && |s| <= MAX_PACKET
    requires off % 2 == 0 && off + 1 < |s| && s[off] == 0 && s[off + 1] == 0
    ensures Verifies(StandardPseudo(t, |s|) + StoreWord(s, off, L3Sum(t, s)))
  {
    hide WordSum, NetworkSum, Pseudo, StandardPseudo, StoreWord;
    StoredComplementVerifies(Pseudo(t, |s|), s, off);
    PseudoIsStandard(t, |s|, StoreWord(s, off, L3Sum(t, s)));
    EitherOrder(StandardPseudo(t, |s|) + StoreWord(s, off, L3Sum(t, s)));
  }

  /** A UDP checksum over IPv6 is never sent as the 0 that means none (section 8.1 of RFC 8200) exactly when the sum is
      not 0xFFFF; the code does not replace a computed 0. */
  lemma UdpChecksumZero(t: Tuple, payload: bytes)
    requires t.Valid() && t.ipver == 6 && HeaderLen(t) + UDP_HEADER_LEN + |payload| <= MAX_PACKET
    ensures var s := UdpBlank(t, payload);
            var p := UdpPacket(t, payload);
            (p[46] == 0 && p[47] == 0) <==> Canon(NetworkSum(StandardPseudo(t, |s|) + s)) == 0xFFFF
  {
    var s := UdpBlank(t, payload);
    hide WordSum, NetworkSum, Pseudo, StandardPseudo, UdpBlank, IpHeader;
    PseudoIsStandard(t, |s|, s);
    ByteOrderIndependence(StandardPseudo(t, |s|) + s);
    var w := L3Sum(t, s);
    assert UdpPacket(t, payload)[40 + 6] == w % 256 && UdpPacket(t, payload)[40 + 7] == w / 256;
  }
}
