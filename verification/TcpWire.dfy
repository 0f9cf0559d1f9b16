/** Segments as bytes: what the proxy reads in a client's packet, and what the client reads in the proxy's. */
module TcpWire {
  import opened Words
  import opened Tuples
  import TcpOptions
  import D = TcpDownstream
  import F = TcpFlow
  import P = Packet
  import X = TcpProxy

  const TH_FIN := 1
  const TH_SYN := 2
  const TH_RST := 4
  const TH_PUSH := 8
  const TH_ACK := 16
  const TH_URG := 32

  /** The flags of a packet to the client. */
  function Flags(kind: X.Kind): byte {
    match kind
    case SynAck => TH_SYN + TH_ACK
    case Ack => TH_ACK
    case PushAck => TH_PUSH + TH_ACK
    case FinAck => TH_FIN + TH_ACK
    case RstAck => TH_RST + TH_ACK
    case Datagram => 0
  }

  predicate Set(flags: byte, flag: byte)
    requires flag > 0
  {
    flags / flag % 2 == 1
  }

  /** How many option bytes the code takes a TCP header of `hdrLen` bytes to have: an 8-bit difference. */
  function OptionsLength(hdrLen: nat): nat {
    (hdrLen + 236) % 256
  }

  /** The packet `q` was parsed from the start of the buffer `mem`, it is no fragment, and the buffer reaches as far as its
      header says that options go. */
  ghost predicate Arrived(mem: bytes, n: nat, ports: P.Ports, q: P.Parsed) {
    && n <= P.MAX_PACKET && n <= |mem| && P.ParsePkt(mem[..n], ports).r == P.Packet(q) && !q.fragment
    && (q.tuple.Transport() == Tcp ==> q.ipHdrLen + P.TCP_HEADER_LEN + OptionsLength(q.l4HdrLen) <= |mem|)
  }

  /** Every field the code reads of a TCP or ICMP packet lies in the buffer. */
  predicate Readable(mem: bytes, q: P.Parsed) {
    && q.ipHdrLen + q.l4HdrLen + q.l7Len <= |mem|
    && (q.tuple.Transport() == Tcp ==> q.ipHdrLen + P.TCP_HEADER_LEN + OptionsLength(q.l4HdrLen) <= |mem|)
    && (q.tuple.Transport() == Icmp ==> q.ipHdrLen + P.ICMP_HEADER_LEN <= |mem|)
  }

  lemma ArrivedIsReadable(mem: bytes, n: nat, ports: P.Ports, q: P.Parsed)
    requires Arrived(mem, n, ports, q)
    ensures Readable(mem, q) && q.tuple.Transport() != Other
    ensures q.tuple.Transport() == Icmp ==> q.tuple.srcPort == [0, 0] || q.tuple.dstPort == [0, 0]
  {
    P.ParsedWithinPacket(mem[..n], ports);
    hide P.ParseIp;
  }

  /** The echo ID of an ICMP packet. */
  function EchoId(mem: bytes, q: P.Parsed): bytes
    requires Readable(mem, q) && q.tuple.Transport() == Icmp
  {
    mem[q.ipHdrLen + 4..q.ipHdrLen + 6]
  }

  /** It is the one in the tuple the packet was parsed to. */
  lemma EchoIdInTuple(mem: bytes, n: nat, ports: P.Ports, q: P.Parsed)
    requires Arrived(mem, n, ports, q) && q.tuple.Transport() == Icmp
    ensures Readable(mem, q) && EchoId(mem, q) == q.tuple.EchoId()
    ensures q.tuple.Rewritten() == q.tuple <==> P.IsRequest(mem[q.ipHdrLen]) || EchoId(mem, q) == [0, 0]
  {
    ArrivedIsReadable(mem, n, ports, q);
    P.IcmpRewrites(mem[..n], ports);
    hide P.ParsePkt;
    var h := q.ipHdrLen;
    assert mem[..n][h + 4..h + 6] == mem[h + 4..h + 6] && mem[..n][h] == mem[h];
  }

  /** The segment in a TCP packet. */
  function SegmentOf(mem: bytes, q: P.Parsed): X.Segment
    requires Readable(mem, q) && q.tuple.Transport() == Tcp
  {
    var l4 := q.ipHdrLen;
    var flags := mem[l4 + 13];
    var opts := l4 + P.TCP_HEADER_LEN;
    X.Segment(P.Dword(mem, l4 + 4), P.Dword(mem, l4 + 8), P.Word(mem, l4 + 14), Set(flags, TH_FIN), Set(flags, TH_RST),
              Set(flags, TH_PUSH), Set(flags, TH_ACK), Set(flags, TH_URG), mem[opts..opts + OptionsLength(q.l4HdrLen)],
              mem[l4 + q.l4HdrLen..l4 + q.l4HdrLen + q.l7Len])
  }

  /** What the parser says of a TCP packet built for the client of `t`. */
  function BuiltTcp(t: Tuple, packet: bytes, optsOff: nat): P.Parsed
    requires P.HeaderLen(t) + P.TCP_HEADER_LEN + 4 * optsOff <= |packet|
  {
    P.Parsed(t.Swapped(), false, false, |packet|, P.HeaderLen(t), P.TCP_HEADER_LEN + 4 * optsOff,
             |packet| - P.HeaderLen(t) - P.TCP_HEADER_LEN - 4 * optsOff)
  }

  /** Reading gives back what was written: numbers, window, flags, options and payload. */
  lemma SegmentRead(t: Tuple, flags: byte, seqNo: u32, ackNo: u32, win: u16, optsOff: nat, rest: bytes)
    requires t.Valid() && t.Transport() == Tcp
    requires 4 * optsOff <= Min(40, |rest|) && P.HeaderLen(t) + P.TCP_HEADER_LEN + |rest| <= P.MAX_PACKET
    ensures var packet := P.TcpPacket(t, flags, seqNo, ackNo, win, optsOff, rest);
            && P.HeaderLen(t) + P.TCP_HEADER_LEN + 4 * optsOff <= |packet|
            && var q := BuiltTcp(t, packet, optsOff);
               Readable(packet, q) &&
               SegmentOf(packet, q) ==
               X.Segment(seqNo, ackNo, win, Set(flags, TH_FIN), Set(flags, TH_RST), Set(flags, TH_PUSH), Set(flags, TH_ACK),
                         Set(flags, TH_URG), rest[..4 * optsOff], rest[4 * optsOff..])
  {
    var packet := P.TcpPacket(t, flags, seqNo, ackNo, win, optsOff, rest);
    P.TcpFields(t, flags, seqNo, ackNo, win, optsOff, rest);
    P.TcpPacketIs(t, flags, seqNo, ackNo, win, optsOff, rest);
    hide P.TcpPacket, P.IpHeader, P.TcpHeader, P.L3Sum, SegmentOf, P.Dword, P.Word, Readable;
    var h := P.HeaderLen(t);
    assert h == 20 || h == 40;
    assert OptionsLength(20 + 4 * optsOff) == 4 * optsOff;
    ReadBehind(packet, h, BuiltTcp(t, packet, optsOff), optsOff, rest);
  }

  /** The fields of the segment that starts at `h`, read in place. */
  lemma ReadBehind(p: bytes, h: nat, q: P.Parsed, optsOff: nat, rest: bytes)
    requires h + 20 + |rest| == |p| && p[h..][20..] == rest && 4 * optsOff <= |rest| && OptionsLength(20 + 4 * optsOff) == 4 * optsOff
    requires q.ipHdrLen == h && q.l4HdrLen == 20 + 4 * optsOff && q.l7Len == |rest| - 4 * optsOff && q.tuple.Transport() == Tcp
    ensures Readable(p, q)
    ensures var s := p[h..];
            SegmentOf(p, q) ==
            X.Segment(P.Dword(s, 4), P.Dword(s, 8), P.Word(s, 14), Set(s[13], TH_FIN), Set(s[13], TH_RST), Set(s[13], TH_PUSH),
                      Set(s[13], TH_ACK), Set(s[13], TH_URG), rest[..4 * optsOff], rest[4 * optsOff..])
  {
    hide Set;
    var s, o := p[h..], 20 + 4 * optsOff;
    assert p[h + 20..h + o] == s[20..][..4 * optsOff];
    assert p[h + o..h + |s|] == s[20..][4 * optsOff..];
    assert P.Dword(p, h + 4) == P.Dword(s, 4) && P.Dword(p, h + 8) == P.Dword(s, 8) && P.Word(p, h + 14) == P.Word(s, 14);
  }

  /** The flags are the six low bits of the 14th byte of the header (section 3.1 of RFC 793), and the numbers, the window and
      the payload are where that has them; options are taken from behind the 20th byte. */
  lemma SegmentLayout(mem: bytes, q: P.Parsed)
    requires Readable(mem, q) && q.tuple.Transport() == Tcp && 20 <= q.l4HdrLen <= 60
    ensures var s, seg := mem[q.ipHdrLen..], SegmentOf(mem, q);
            && |s| >= 20
            && seg.seqNo == ((s[4] as int * 256 + s[5]) * 256 + s[6]) * 256 + s[7]
            && seg.ackNo == ((s[8] as int * 256 + s[9]) * 256 + s[10]) * 256 + s[11]
            && seg.win == s[14] as int * 256 + s[15]
            && seg.fin == (s[13] % 2 == 1) && seg.rst == (s[13] / 4 % 2 == 1) && seg.psh == (s[13] / 8 % 2 == 1)
            && seg.ackFlag == (s[13] / 16 % 2 == 1) && seg.urg == (s[13] / 32 % 2 == 1)
            && |s| >= q.l4HdrLen + q.l7Len && seg.options == s[20..q.l4HdrLen]
            && seg.payload == s[q.l4HdrLen..q.l4HdrLen + q.l7Len]
  {
    var h, l4 := q.ipHdrLen, q.l4HdrLen;
    var s := mem[h..];
    assert OptionsLength(l4) == l4 - 20;
    assert forall i :: 0 <= i < |s| ==> s[i] == mem[h + i];
    assert s[20..l4] == mem[h + 20..h + l4] && s[l4..l4 + q.l7Len] == mem[h + l4..h + l4 + q.l7Len];
  }

  /** The flags sent: SYN+ACK, ACK, PSH+ACK, FIN+ACK and RST+ACK. */
  lemma FlagsSent()
    ensures Flags(X.SynAck) == 0x12 && Flags(X.Ack) == 0x10 && Flags(X.PushAck) == 0x18
    ensures Flags(X.FinAck) == 0x11 && Flags(X.RstAck) == 0x14
  {
  }

  // ------------------------------------------------------------------ the packets of the machine

  /** What follows the TCP header of a packet to the client: the options of a SYN+ACK, or the payload. */
  function Rest(p: X.Packet, mss: u16, scale: byte): bytes {
    if p.kind == X.SynAck then TcpOptions.SynAckOptions(mss, scale) else p.payload
  }

  /** A packet of the machine as bytes. */
  function Wire(t: Tuple, p: X.Packet, win: u16, mss: u16, scale: byte): bytes
    requires t.Valid() && P.HeaderLen(t) + P.TCP_HEADER_LEN + |Rest(p, mss, scale)| <= P.MAX_PACKET
  {
    P.TcpPacket(t, Flags(p.kind), p.seqNo, p.ackNo, win, if p.kind == X.SynAck then 2 else 0, Rest(p, mss, scale))
  }

  /** What build_reply_tcpip writes for a connection is the packet of the machine. */
  lemma ReplyIsBuilt(t: Tuple, c: X.Conn, kind: X.Kind, payload: bytes, win: u16, mss: u16, scale: byte)
    requires t.Valid() && kind != X.Datagram
    requires P.HeaderLen(t) + P.TCP_HEADER_LEN + |Rest(X.Reply(c, kind, payload), mss, scale)| <= P.MAX_PACKET
    ensures var flags := Flags(kind);
            Wire(t, X.Reply(c, kind, payload), win, mss, scale) ==
            P.TcpPacket(t, flags, c.zdtunSeq, if P.HasAck(flags) then c.clientSeq else 0, win,
                        if kind == X.SynAck then 2 else 0, Rest(X.Reply(c, kind, payload), mss, scale))
  {
    hide P.TcpPacket;
    assert P.HasAck(Flags(kind));
  }

  /** The client reads in it the sequence and acknowledgment numbers, the payload and the flags of the machine's packet,
      and in a SYN+ACK the MSS and the scale. */
  lemma ClientReads(t: Tuple, p: X.Packet, win: u16, mss: u16, scale: byte)
    requires t.Valid() && t.Transport() == Tcp && p.kind != X.Datagram && (p.kind == X.SynAck ==> p.payload == [])
    requires P.HeaderLen(t) + P.TCP_HEADER_LEN + |Rest(p, mss, scale)| <= P.MAX_PACKET
    ensures var packet := Wire(t, p, win, mss, scale);
            var optsOff := if p.kind == X.SynAck then 2 else 0;
            && P.HeaderLen(t) + P.TCP_HEADER_LEN + 4 * optsOff <= |packet|
            && var q := BuiltTcp(t, packet, optsOff);
               && P.Accepted(t, packet, q.l4HdrLen, q.l7Len) && Readable(packet, q)
               && var seg := SegmentOf(packet, q);
                  && seg.seqNo == p.seqNo && seg.ackNo == p.ackNo && seg.win == win && seg.payload == p.payload
                  && seg.fin == (p.kind == X.FinAck) && seg.rst == (p.kind == X.RstAck) && seg.psh == (p.kind == X.PushAck)
                  && seg.ackFlag && !seg.urg
                  && (p.kind == X.SynAck ==>
                        TcpOptions.Parse(seg.options, TcpOptions.Parsed(0, 0)) == TcpOptions.Parsed(mss, scale))
  {
    var flags := Flags(p.kind);
    var optsOff := if p.kind == X.SynAck then 2 else 0;
    var rest := Rest(p, mss, scale);
    TcpOptions.SynAckOptionsReparse(mss, scale, TcpOptions.Parsed(0, 0));
    RestSplits(p, mss, scale);
    FlagBits(p.kind);
    assert 4 * optsOff <= Min(40, |rest|) && P.TCP_HEADER_LEN == 20;
    assert Wire(t, p, win, mss, scale) == P.TcpPacket(t, flags, p.seqNo, p.ackNo, win, optsOff, rest);
    P.TcpPacketIs(t, flags, p.seqNo, p.ackNo, win, optsOff, rest);
    assert |P.TcpPacket(t, flags, p.seqNo, p.ackNo, win, optsOff, rest)| == P.HeaderLen(t) + 20 + |rest| by {
      hide P.TcpPacket, P.IpHeader, P.L3Sum;
    }
    BuiltIs(t, P.TcpPacket(t, flags, p.seqNo, p.ackNo, win, optsOff, rest), optsOff);
    hide *;
    P.TcpRoundTrip(t, flags, p.seqNo, p.ackNo, win, optsOff, rest);
    SegmentRead(t, flags, p.seqNo, p.ackNo, win, optsOff, rest);
  }

  lemma BuiltIs(t: Tuple, packet: bytes, optsOff: nat)
    requires P.HeaderLen(t) + P.TCP_HEADER_LEN + 4 * optsOff <= |packet|
    ensures var q := BuiltTcp(t, packet, optsOff);
            q.l4HdrLen == 20 + 4 * optsOff && q.l7Len == |packet| - P.HeaderLen(t) - 20 - 4 * optsOff
            && q.tuple.Transport() == t.Transport()
  {
  }

  lemma RestSplits(p: X.Packet, mss: u16, scale: byte)
    requires p.kind == X.SynAck ==> p.payload == []
    ensures var rest, n := Rest(p, mss, scale), if p.kind == X.SynAck then 8 else 0;
            n <= |rest| && rest[..n] == (if p.kind == X.SynAck then TcpOptions.SynAckOptions(mss, scale) else []) && rest[n..] == p.payload
  {
  }

  lemma FlagBits(kind: X.Kind)
    requires kind != X.Datagram
    ensures var f := Flags(kind);
            && Set(f, TH_ACK) && !Set(f, TH_URG) && Set(f, TH_FIN) == (kind == X.FinAck)
            && Set(f, TH_RST) == (kind == X.RstAck) && Set(f, TH_PUSH) == (kind == X.PushAck)
  {
  }

  // ------------------------------------------------------------------ packets that fit in the reply buffer

  /** Every packet of `log` has room in the reply buffer behind its headers. */
  predicate Fits(t: Tuple, log: seq<X.Packet>, mss: u16, scale: byte) {
    forall i :: 0 <= i < |log| ==> P.HeaderLen(t) + P.TCP_HEADER_LEN + |Rest(log[i], mss, scale)| <= P.MAX_PACKET
  }

  lemma {:induction false} LongestIs(log: seq<X.Packet>)
    ensures F.Longest(log) > 0 ==> exists i :: 0 <= i < |log| && |log[i].payload| == F.Longest(log)
  {
    if log != [] {
      LongestIs(log[..|log| - 1]);
      assert |log[|log| - 1].payload| <= F.Longest(log);
    }
  }

  lemma FitsIfShort(t: Tuple, log: seq<X.Packet>, mss: u16, scale: byte)
    requires D.LogOk(log)
    ensures Fits(t, log, mss, scale) <==> P.HeaderLen(t) + P.TCP_HEADER_LEN + F.Longest(log) <= P.MAX_PACKET
  {
    assert P.HeaderLen(t) == 20 || P.HeaderLen(t) == 40;
    hide F.Longest;
    if P.HeaderLen(t) + P.TCP_HEADER_LEN + F.Longest(log) <= P.MAX_PACKET {
      forall i | 0 <= i < |log|
        ensures P.HeaderLen(t) + P.TCP_HEADER_LEN + |Rest(log[i], mss, scale)| <= P.MAX_PACKET
      {
        F.LongestOf(log, i);
      }
    } else {
      LongestIs(log);
      var i :| 0 <= i < |log| && |log[i].payload| == F.Longest(log);
      assert D.PacketOk(log, i);
      assert Rest(log[i], mss, scale) == log[i].payload;
    }
  }

  /** Whatever a client does after a SYN with the options `options`, all it is sent fits. */
  ghost predicate AlwaysFits(t: Tuple, options: bytes, defaultMss: nat, mss: u16, scale: byte) {
    forall env: X.Env, mode, events {:trigger X.Run(env, X.NewConn(true, mode), events)} ::
      && env.defaultMss == defaultMss && D.PossibleRun(env, X.NewConn(true, mode), events)
      && F.SynSays(env, X.NewConn(true, mode), events, options)
      ==> Fits(t, X.Run(env, X.NewConn(true, mode), events).log, mss, scale)
  }

  /** Every packet of every run fits if and only if the MSS that the SYN announces, or the default one, does: the bytes read
      for the client are as many as it announces. */
  lemma RepliesFit(t: Tuple, options: bytes, defaultMss: u16, mss: u16, scale: byte)
    requires TcpOptions.Parse(options, TcpOptions.Parsed(defaultMss, 0)).scale < 32
    ensures AlwaysFits(t, options, defaultMss, mss, scale) <==>
              (if t.ipver == 4 then 20 else 40) + 20 + TcpOptions.Parse(options, TcpOptions.Parsed(defaultMss, 0)).mss <= 65535
  {
    var n := P.MAX_PACKET - P.TCP_HEADER_LEN - P.HeaderLen(t);
    F.PayloadsFit(options, defaultMss, n);
    hide X.Run, D.PossibleRun, F.SynSays, F.Longest, Fits, TcpOptions.Parse;
    forall env: X.Env, mode, events | D.PossibleRun(env, X.NewConn(true, mode), events)
      ensures var log := X.Run(env, X.NewConn(true, mode), events).log; Fits(t, log, mss, scale) <==> F.Longest(log) <= n
    {
      D.RunIsDown(env, mode, events);
      RunLogOk(X.Run(env, X.NewConn(true, mode), events), !D.ReadsEarlyIn(env, X.NewConn(true, mode), events));
      FitsIfShort(t, X.Run(env, X.NewConn(true, mode), events).log, mss, scale);
    }
  }

  lemma RunLogOk(c: X.Conn, strict: bool)
    requires D.Down(c, strict)
    ensures D.LogOk(c.log)
  {
  }
}
