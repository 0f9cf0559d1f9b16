/** Answers: what each event makes of a connection and of the packets its client receives, in numbers and flags.
    A client that takes its packets is assumed where one is sent; TcpDownstream says what a refusal leads to. */
module TcpAnswers {
  import opened Words
  import opened TcpProxy
  import opened TcpReadiness
  import U = TcpUpstream

  /** A packet built for `c`, whose status is neither closed nor an error. */
  function Built(c: Conn, kind: Kind, seqNo: u32, ackNo: u32, payload: bytes, whileOpen: bool): Packet {
    Packet(kind, seqNo, ackNo, payload, whileOpen, |c.given|, true)
  }

  predicate Live(c: Conn) {
    c.status == New || c.status == Connecting || c.status == Connected
  }

  /** The connection is up: connected, and no SOCKS5 handshake is left to do. */
  predicate IsUp(c: Conn) {
    c.isTcp && c.status == Connected && (c.mode != Socks5 || c.s5 == Established)
  }

  /** The segment has the number expected next. */
  predicate Expected(c: Conn, seg: Segment) {
    seg.seqNo == Wrap32(c.clientSeq + c.qsize)
  }

  /** It has the number before client_seq, and acknowledges. */
  predicate Probe(c: Conn, seg: Segment) {
    seg.ackFlag && Wrap32(seg.seqNo + 1) == c.clientSeq
  }

  // ------------------------------------------------------------------ closing

  /** A connection that is given up: a RST to the client, unless it has had a FIN, and nothing kept. */
  function GivenUp(c: Conn, st: Status): Conn {
    c.(open := false, inRead := false, inWrite := false, queue := [], status := st,
       sends := if c.isTcp && !c.finAckSent then c.sends + 1 else c.sends,
       log := if c.isTcp && !c.finAckSent then c.log + [Built(c, RstAck, c.zdtunSeq, c.clientSeq, [], false)] else c.log)
  }

  /** The RST can be sent, if one is due. */
  predicate TakesRst(env: Env, c: Conn) {
    c.isTcp && !c.finAckSent ==> env.accepts(c.sends)
  }

  lemma CloseGivesUp(env: Env, c: Conn, st: Status)
    requires TakesRst(env, c)
    ensures CloseConn(env, c, st) ==
            if !Live(c) then c else GivenUp(c, if st in {New, Connecting, Connected} then Closed else st)
  {
    var c1 := c.(open := false, inRead := false, inWrite := false);
    var p := Reply(c1, RstAck, []);
    assert env.accepts(c.sends) ==> SendToClient(env, c1, p) == Outcome(Accepted(c1, p), 0);
  }

  /** A close from outside: a RST, unless the client has had a FIN; the socket and the queue are given up. */
  lemma ClosedFromOutside(env: Env, c: Conn, st: Status)
    requires TakesRst(env, c)
    ensures Step(env, c, Close(st)) ==
            if !Live(c) then c else GivenUp(c, if st in {New, Connecting, Connected} then Closed else st)
  {
    CloseGivesUp(env, c, st);
    hide CloseConn, GivenUp;
  }

  // ------------------------------------------------------------------ segments

  /** A segment of a connection that is being made, or over, is ignored; so is one out of sequence. */
  lemma SegmentIgnored(env: Env, c: Conn, seg: Segment, r: SynResult)
    requires !Live(c) || (!seg.urg && (c.status == Connecting || (c.status == Connected && !Expected(c, seg) && !Probe(c, seg))))
    ensures Step(env, c, Client(seg, r)) == c
  {
  }

  /** A segment with the URG flag ends any connection, and one in sequence ends a SOCKS5 handshake. */
  lemma SegmentRefused(env: Env, c: Conn, seg: Segment, r: SynResult)
    requires Live(c) && TakesRst(env, c)
    requires seg.urg || (c.status == Connected && !IsUp(c) && c.isTcp && (Expected(c, seg) || Probe(c, seg)))
    ensures Step(env, c, Client(seg, r)) == GivenUp(c, if seg.urg then Error else Socks5Error)
  {
    CloseGivesUp(env, c, Error);
    CloseGivesUp(env, c, Socks5Error);
    ClosedTwice(env, GivenUp(c, if seg.urg then Error else Socks5Error), Error);
    hide CloseConn, GivenUp;
  }

  lemma ClosedTwice(env: Env, c: Conn, st: Status)
    requires !Live(c)
    ensures CloseConn(env, c, st) == c
  {
  }

  /** A RST in sequence closes the connection. */
  lemma RstCloses(env: Env, c: Conn, seg: Segment, r: SynResult)
    requires IsUp(c) && TakesRst(env, c) && (Expected(c, seg) || Probe(c, seg)) && seg.rst && !seg.urg
    ensures Step(env, c, Client(seg, r)) == GivenUp(c, Closed)
  {
    CloseGivesUp(env, c, Closed);
    hide CloseConn, GivenUp;
  }

  /** A FIN in sequence is answered by an ACK of everything up to and including it. The connection is over if the server
      had closed; otherwise it goes on, and only remembers the FIN. */
  lemma FinAnswered(env: Env, c: Conn, seg: Segment, r: SynResult)
    requires IsUp(c) && (Expected(c, seg) || Probe(c, seg)) && seg.fin && seg.ackFlag && !seg.rst && !seg.urg
    requires env.accepts(c.sends) && (!c.open ==> c.finAckSent)
    ensures var c1 := Step(env, c, Client(seg, r));
            var ackNo := Wrap32(c.clientSeq + |seg.payload| + 1);
            && c1 == c.(clientSeq := ackNo, clientClosed := true, sends := c.sends + 1,
                        log := c.log + [Built(c, Ack, c.zdtunSeq, ackNo, [], c.open)],
                        status := if c.open then Connected else Closed,
                        inRead := c.inRead && c.open, inWrite := c.inWrite && c.open, queue := if c.open then c.queue else [])
            && (!Probe(c, seg) ==> (ackNo == Wrap32(seg.seqNo + |seg.payload| + 1) <==> c.qsize == 0))
  {
    var ackNo := Wrap32(c.clientSeq + |seg.payload| + 1);
    var c1 := c.(clientSeq := ackNo, clientClosed := true);
    var p := Reply(c1, Ack, []);
    assert SendToClient(env, c1, p) == Outcome(Accepted(c1, p), 0);
    if !c.open {
      CloseGivesUp(env, Accepted(c1, p), Closed);
    }
    hide CloseConn;
    if Expected(c, seg) {
      FinNumber(c.clientSeq, c.qsize, |seg.payload| + 1);
    }
  }

  lemma FinNumber(a: u32, q: u32, n: nat)
    ensures Wrap32(a + n) == Wrap32(Wrap32(a + q) + n) <==> q == 0
  {
    WrapAdds(a + q, n);
    if Wrap32(a + n) == Wrap32(a + q + n) {
      WrapAdds(a + n, -(a + n));
      WrapAdds(a + q + n, -(a + n));
      assert Wrap32(q) == 0;
    }
  }

  /** A keep-alive probe is answered by an ACK, as long as the server socket is open, and changes nothing else. */
  lemma ProbeAnswered(env: Env, c: Conn, seg: Segment, r: SynResult)
    requires IsUp(c) && Probe(c, seg) && seg.payload == [] && !seg.fin && !seg.rst && !seg.urg && env.accepts(c.sends)
    ensures Step(env, c, Client(seg, r)) ==
            if c.open then c.(sends := c.sends + 1, log := c.log + [Built(c, Ack, c.zdtunSeq, c.clientSeq, [], true)]) else c
  {
    var p := Reply(c, Ack, []);
    assert SendToClient(env, c, p) == Outcome(Accepted(c, p), 0);
    hide CloseConn;
  }

  /** A segment in sequence with neither FIN+ACK nor RST: its ACK sets the window, its bytes are queued, nothing is sent. */
  lemma SegmentTaken(env: Env, c: Conn, seg: Segment, r: SynResult)
    requires IsUp(c) && c.open && Expected(c, seg) && !Probe(c, seg) && !(seg.fin && seg.ackFlag) && !seg.rst && !seg.urg
    ensures var w := if seg.ackFlag then Wrap32(seg.ackNo + Shl(seg.win, c.scale) - c.zdtunSeq) else c.window;
            var n := |seg.payload|;
            Step(env, c, Client(seg, r)) ==
            c.(window := w, inRead := c.inRead || (seg.ackFlag && w > 0),
               queue := if n > 0 then c.queue + [Item(seg.payload, 0, seg.psh)] else c.queue,
               qsize := if n > 0 then Wrap32(c.qsize + n) else c.qsize, inWrite := c.inWrite || n > 0)
  {
    hide CloseConn, Shl;
  }

  /** Bytes in the place of a keep-alive probe: the probe is answered, and they are queued as if they were the next. */
  lemma ProbeWithData(env: Env, c: Conn, seg: Segment, r: SynResult)
    requires IsUp(c) && c.open && Probe(c, seg) && seg.payload != [] && !seg.fin && !seg.rst && !seg.urg && env.accepts(c.sends)
    ensures Step(env, c, Client(seg, r)) ==
            c.(sends := c.sends + 1, log := c.log + [Built(c, Ack, c.zdtunSeq, c.clientSeq, [], true)],
               queue := c.queue + [Item(seg.payload, 0, seg.psh)], qsize := Wrap32(c.qsize + |seg.payload|), inWrite := true)
  {
    var p := Reply(c, Ack, []);
    assert SendToClient(env, c, p) == Outcome(Accepted(c, p), 0);
    hide CloseConn;
  }

  /** Once the server socket is gone, bytes in sequence are acknowledged and dropped, and a segment without bytes is ignored. */
  lemma DroppedWhenClosed(env: Env, c: Conn, seg: Segment, r: SynResult)
    requires IsUp(c) && !c.open && (Expected(c, seg) || Probe(c, seg)) && !(seg.fin && seg.ackFlag) && !seg.rst && !seg.urg
    requires env.accepts(c.sends)
    ensures var ackNo := Wrap32(c.clientSeq + |seg.payload|);
            Step(env, c, Client(seg, r)) ==
            if seg.payload == [] then c
            else c.(clientSeq := ackNo, sends := c.sends + 1, log := c.log + [Built(c, Ack, c.zdtunSeq, ackNo, [], false)])
  {
    var c1 := c.(clientSeq := Wrap32(c.clientSeq + |seg.payload|));
    var p := Reply(c1, Ack, []);
    assert SendToClient(env, c1, p) == Outcome(Accepted(c1, p), 0);
    hide CloseConn;
  }

  /** What a SYN finds in its options. */
  function Says(env: Env, seg: Segment): TcpOptions.Parsed {
    TcpOptions.Parse(seg.options, TcpOptions.Parsed(env.defaultMss, 0))
  }

  /** A new connection whose SYN got a socket. */
  function Opening(env: Env, c: Conn, seg: Segment): Conn {
    var o := Says(env, seg);
    c.(open := true, inRead := true, window := Shl(seg.win, o.scale), scale := o.scale, mss := o.mss)
  }

  /** A SYN without a socket is an error that nothing is sent for; one whose connect() fails is answered by a RST; one that
      is to wait has the socket watched for writing; one that is connected at once is answered by the SYN+ACK numbered
      0x77EB77EB that acknowledges it, or has the SOCKS5 proxy greeted. */
  lemma SynAnswered(env: Env, c: Conn, seg: Segment, r: SynResult)
    requires c.status == New && c.isTcp && !c.finAckSent && !seg.urg && env.accepts(c.sends)
    ensures var c1 := Opening(env, c, seg).(clientSeq := Wrap32(seg.seqNo + 1), zdtunSeq := 0x77EB77EB, isn := seg.seqNo);
            Step(env, c, Client(seg, r)) ==
            if !r.socketOk then c.(status := SocketError)
            else match r.connect
                 case Failed(e) => GivenUp(Opening(env, c, seg), ErrorStatus(e))
                 case InProgress => c1.(status := Connecting, inWrite := true)
                 case Done => ConnectedNow(env, c1, r.hello)
  {
    hide CloseConn, Shl, GivenUp, SocketSyn, ErrorStatus, TcpOptions.Parse;
    ClosedTwice(env, c.(status := SocketError), Error);
    var c0 := Opening(env, c, seg);
    var c1 := c0.(clientSeq := Wrap32(seg.seqNo + 1), zdtunSeq := 0x77EB77EB, isn := seg.seqNo);
    NowConnected(env, c1, r.hello);
    match r.connect
    case Failed(e) => ErrorCloses(env, c0, e);
    case _ =>
  }

  /** The connection to the server, or to the proxy, stands. */
  function ConnectedNow(env: Env, c: Conn, hello: Option<SockError>): Conn {
    var c1 := c.(inWrite := false, status := Connected);
    if c.mode != Socks5 then
      c1.(zdtunSeq := Wrap32(c.zdtunSeq + 1), sends := c.sends + 1,
          log := c.log + [Built(c, SynAck, c.zdtunSeq, c.clientSeq, [], c.open)])
    else if hello.Some? then GivenUp(c1, ErrorStatus(hello.value))
    else c1.(requests := c.requests + [[5, 1, if env.userPass.Some? then 2 else 0]], s5 := Hello)
  }

  lemma NowConnected(env: Env, c: Conn, hello: Option<SockError>)
    requires Live(c) && c.isTcp && !c.finAckSent && env.accepts(c.sends)
    ensures var Outcome(c1, rv) := SocketSyn(env, c, hello);
            (if rv != 0 then CloseConn(env, c1, Error) else c1) == ConnectedNow(env, c, hello) == c1
  {
    hide CloseConn, GivenUp, ErrorStatus;
    var c1 := c.(inWrite := false, status := Connected);
    var p := Reply(c1, SynAck, []);
    assert SendToClient(env, c1, p) == Outcome(Accepted(c1, p), 0);
    if hello.Some? {
      ErrorCloses(env, c1, hello.value);
      ErrorIsOver(hello.value);
      GivenUpIsOver(c1, ErrorStatus(hello.value));
      ClosedTwice(env, GivenUp(c1, ErrorStatus(hello.value)), Error);
    }
  }

  lemma GivenUpIsOver(c: Conn, st: Status)
    requires st !in {New, Connecting, Connected}
    ensures !Live(GivenUp(c, st))
  {
  }

  // ------------------------------------------------------------------ socket errors

  function ErrorStatus(e: SockError): (st: Status)
  {
    match e
    case ConnReset => Status.Reset
    case BrokenPipe => SocketError
    case ConnRefused => SocketError
    case ConnAborted => SocketError
    case NetUnreachable => Unreachable
    case HostUnreachable => Unreachable
    case OtherError => SocketError
  }

  lemma ErrorIsOver(e: SockError)
    ensures ErrorStatus(e) !in {New, Connecting, Connected}
  {
  }

  /** The status a socket error leaves, the code that is returned, and the RST. */
  lemma ErrorCloses(env: Env, c: Conn, e: SockError)
    requires Live(c) && TakesRst(env, c)
    ensures CloseOnError(env, c, e).c == GivenUp(c, ErrorStatus(e))
    ensures CloseOnError(env, c, e).rv == if e in {NetUnreachable, HostUnreachable, OtherError} then -1 else 0
  {
    CloseGivesUp(env, c, StatusOf(e));
    hide CloseConn, GivenUp;
  }

  /** recv() that fails. */
  lemma ReadFails(env: Env, c: Conn, e: SockError, fail: Option<SockError>)
    requires Live(c) && TakesRst(env, c) && c.open && c.inRead
    ensures Step(env, c, CanRead(RecvFailed(e), fail)) == GivenUp(c, ErrorStatus(e))
  {
    ErrorCloses(env, c, e);
    hide CloseOnError, GivenUp, ErrorStatus;
  }

  // ------------------------------------------------------------------ server bytes, and the end of them

  /** Server bytes that fit the window go out in one packet, pushed if nothing is left in the socket buffer. */
  lemma BytesRelayed(env: Env, c: Conn, d: bytes, last: bool, fail: Option<SockError>)
    requires IsUp(c) && c.open && c.inRead && 0 < |d| <= c.window && env.accepts(c.sends)
    ensures Step(env, c, CanRead(Data(d, last), fail)) ==
            c.(fromServer := c.fromServer + d, zdtunSeq := Wrap32(c.zdtunSeq + |d|), window := c.window - |d|,
               inRead := c.window != |d|, sends := c.sends + 1,
               log := c.log + [Built(c, if last then PushAck else Ack, c.zdtunSeq, c.clientSeq, d, true)])
  {
    var c0 := c.(fromServer := c.fromServer + d);
    var p := Reply(c0, if last then PushAck else Ack, d);
    assert SendToClient(env, c0, p) == Outcome(Accepted(c0, p), 0);
    hide CloseConn;
  }

  /** The server's end of stream: a FIN, unless one was sent; the socket is given up, and the connection is over if the client
      had closed too. */
  lemma EndRelayed(env: Env, c: Conn, fail: Option<SockError>)
    requires Live(c) && c.isTcp && c.open && c.inRead && !c.finAckSent && env.accepts(c.sends)
    ensures Step(env, c, CanRead(Eof, fail)) ==
            c.(open := false, inRead := false, inWrite := false, finAckSent := true, zdtunSeq := Wrap32(c.zdtunSeq + 1),
               sends := c.sends + 1, log := c.log + [Built(c, FinAck, c.zdtunSeq, c.clientSeq, [], true)],
               status := if c.clientClosed then Closed else c.status, queue := if c.clientClosed then [] else c.queue)
  {
    var p := Reply(c, FinAck, []);
    assert SendToClient(env, c, p) == Outcome(Accepted(c, p), 0);
    CloseGivesUp(env, Accepted(c, p).(zdtunSeq := Wrap32(c.zdtunSeq + 1), finAckSent := true).(open := false, inRead := false,
                 inWrite := false), Closed);
    hide CloseConn;
  }

  /** A connection is over once both sides have closed, whichever is first: the FIN of the client is acknowledged, that of the
      server passed on, and nothing else is sent. */
  lemma OverAfterBoth(env: Env, c: Conn, seg: Segment, r: SynResult, fail: Option<SockError>, serverFirst: bool)
    requires IsUp(c) && c.open && c.inRead && !c.finAckSent && !c.clientClosed
    requires Expected(c, seg) && !Probe(c, seg) && seg.fin && seg.ackFlag && !seg.rst && !seg.urg
    requires env.accepts(c.sends) && env.accepts(c.sends + 1)
    ensures var fin, eof := Client(seg, r), CanRead(Eof, fail);
            var c1 := Step(env, c, if serverFirst then eof else fin);
            var c2 := Step(env, c1, if serverFirst then fin else eof);
            var ackNo := Wrap32(c.clientSeq + |seg.payload| + 1);
            var seqNo := Wrap32(c.zdtunSeq + 1);
            && c1.status == Connected && c2.status == Closed && !c2.open && c2.queue == []
            && c2.log == c.log + if serverFirst then [Built(c, FinAck, c.zdtunSeq, c.clientSeq, [], true),
                                                      Built(c, Ack, seqNo, ackNo, [], false)]
                                 else [Built(c, Ack, c.zdtunSeq, ackNo, [], true), Built(c, FinAck, c.zdtunSeq, ackNo, [], true)]
  {
    hide Step;
    if serverFirst {
      EndRelayed(env, c, fail);
      FinAnswered(env, Step(env, c, CanRead(Eof, fail)), seg, r);
    } else {
      FinAnswered(env, c, seg, r);
      EndRelayed(env, Step(env, c, Client(seg, r)), fail);
    }
  }

  // ------------------------------------------------------------------ what a SOCKS5 proxy is refused for

  /** The status that a reply of the proxy ends the connection with, if it does (RFC 1928, RFC 1929). */
  function Refusal(env: Env, c: Conn, d: bytes): Option<Status> {
    match c.s5
    case Hello => if |d| == 2 && d[0] == 5 && (d[1] == 0 || (d[1] == 2 && env.userPass.Some?)) then None else Some(Socks5Error)
    case Auth => if |d| >= 2 && d[0] == 1 && d[1] == 0 then None else Some(Socks5Error)
    case Requested =>
      if |d| < 4 || d[0] != 5 then Some(Socks5Error)
      else if d[1] == 3 || d[1] == 4 then Some(Unreachable)
      else if d[1] == 5 then Some(SocketError)
      else if d[1] != 0 || (d[3] != 1 && d[3] != 4) then Some(Socks5Error)
      else if |d| > 4 + (if d[3] == 1 then 6 else 18) then Some(Socks5Error)
      else None
    case SkipBnd => if |d| > c.skip then Some(Socks5Error) else None
    case Established => None
  }

  /** `c1` is `c`, ended with the status `st` and a RST to the client. */
  predicate Ended(c: Conn, c1: Conn, st: Status) {
    && c1.status == st && !c1.open && c1.queue == [] && c1.requests == c.requests && c1.fromServer == c.fromServer
    && c1.log == if c.finAckSent then c.log else c.log + [Built(c, RstAck, c.zdtunSeq, c.clientSeq, [], false)]
  }

  lemma ClosingEnds(env: Env, c: Conn, skip: nat, s5: Socks5Status, st: Status)
    requires Live(c) && c.isTcp && env.accepts(c.sends) && st !in {New, Connecting, Connected}
    ensures Ended(c, CloseConn(env, c.(skip := skip, s5 := s5), st), st) && CloseConn(env, c.(skip := skip, s5 := s5), st).s5 == s5
  {
    CloseGivesUp(env, c.(skip := skip, s5 := s5), st);
    hide CloseConn;
  }

  lemma ClosingHere(env: Env, c: Conn, st: Status)
    requires Live(c) && c.isTcp && env.accepts(c.sends) && st !in {New, Connecting, Connected}
    ensures Ended(c, CloseConn(env, c, st), st) && CloseConn(env, c, st).s5 == c.s5
  {
    assert c.(skip := c.skip, s5 := c.s5) == c;
    hide CloseConn;
    ClosingEnds(env, c, c.skip, c.s5, st);
  }

  lemma SkipEnds(env: Env, c: Conn, skip: nat, d: bytes)
    requires Live(c) && c.isTcp && env.accepts(c.sends) && c.open
    ensures var Outcome(c1, rv) := SkipBound(env, c.(skip := skip, s5 := SkipBnd), d);
            if |d| > skip then rv == -1 && Ended(c, c1, Socks5Error)
            else rv == 0 && c1 == c.(skip := skip - |d|, s5 := if |d| == skip then Established else SkipBnd)
  {
    ClosingEnds(env, c, skip, SkipBnd, Socks5Error);
    hide CloseConn, Ended;
  }

  lemma ConnectReplyEnds(env: Env, c: Conn, d: bytes)
    requires Live(c) && c.isTcp && c.open && env.accepts(c.sends) && c.s5 == Requested
    ensures var Outcome(c1, rv) := ConnectReply(env, c, d);
            match Refusal(env, c, d)
            case Some(st) => Ended(c, c1, st) && (rv == 0 ==> c1.s5 == Requested)
            case None => rv == 0 && c1.open && c1.status == c.status && c1.sends == c.sends
    ensures ConnectReply(env, c, d).rv == 0 <==> Refusal(env, c, d) == None || (|d| >= 4 && d[0] == 5 && 3 <= d[1] <= 5)
  {
    ClosingHere(env, c, Socks5Error);
    ClosingHere(env, c, Unreachable);
    ClosingHere(env, c, SocketError);
    if |d| >= 4 {
      SkipEnds(env, c, if d[3] == 1 then 6 else 18, d[4..]);
    }
    hide CloseConn, SkipBound, Ended;
  }

  /** The connection when bytes of the handshake were read. */
  function Heard(c: Conn, d: bytes): Conn {
    c.(fromServer := c.fromServer + d, handshake := c.handshake + |d|)
  }

  /** Such a reply ends the connection with a RST to the client; any other leaves it open, if the request that follows can be
      sent and the client takes its SYN+ACK. */
  lemma ProxyRefuses(env: Env, c: Conn, d: bytes, last: bool, fail: Option<SockError>)
    requires Live(c) && c.isTcp && c.mode == Socks5 && c.s5 != Established && c.open && c.inRead && env.accepts(c.sends)
    ensures var c1 := Step(env, c, CanRead(Data(d, last), fail));
            match Refusal(env, c, d)
            case Some(st) => Ended(Heard(c, d), c1, st)
            case None => fail == None ==> c1.open && c1.status == c.status
  {
    HandshakeRead(env, c, d, last, fail);
    ReplyEnds(env, Heard(c, d), d, fail);
    SynAckStays(env, Socks5Reply(env, Heard(c, d), d, fail).c);
    hide Socks5Reply, Refusal, SendSynAck, Step, Ended;
  }

  lemma HandshakeRead(env: Env, c: Conn, d: bytes, last: bool, fail: Option<SockError>)
    requires c.mode == Socks5 && c.s5 != Established && c.open && c.inRead
    ensures var Outcome(c1, rv) := Socks5Reply(env, Heard(c, d), d, fail);
            Step(env, c, CanRead(Data(d, last), fail)) == if rv == 0 && c1.s5 == Established then SendSynAck(env, c1).c else c1
    ensures Refusal(env, Heard(c, d), d) == Refusal(env, c, d) && Live(Heard(c, d)) == Live(c)
    ensures var r := Heard(c, d); r.isTcp == c.isTcp && r.s5 == c.s5 && r.open && r.sends == c.sends && r.status == c.status
  {
    hide Socks5Reply, SendSynAck;
  }

  lemma SynAckStays(env: Env, c: Conn)
    ensures env.accepts(c.sends) ==> SendSynAck(env, c).c.open == c.open && SendSynAck(env, c).c.status == c.status
  {
    var p := Reply(c, SynAck, []);
    assert env.accepts(c.sends) ==> SendToClient(env, c, p) == Outcome(Accepted(c, p), 0);
  }

  lemma ReplyEnds(env: Env, c: Conn, d: bytes, fail: Option<SockError>)
    requires Live(c) && c.isTcp && c.s5 != Established && c.open && env.accepts(c.sends)
    ensures var Outcome(c1, rv) := Socks5Reply(env, c, d, fail);
            match Refusal(env, c, d)
            case Some(st) => Ended(c, c1, st) && (rv == 0 ==> c1.s5 != Established)
            case None => fail == None ==> rv == 0 && c1.open && c1.status == c.status && c1.sends == c.sends
  {
    ClosingHere(env, c, Socks5Error);
    hide CloseConn, CloseOnError, ConnectRequest, AuthRequest, Ended, ConnectReply, SkipBound;
    if c.s5 == Requested {
      ConnectReplyEnds(env, c, d);
      hide Refusal;
    } else if c.s5 == SkipBnd {
      assert c.(skip := c.skip, s5 := SkipBnd) == c;
      SkipEnds(env, c, c.skip, d);
    }
  }

  // ------------------------------------------------------------------ writing

  /** A write in which send() reports no error: if it accepted any byte, all accepted so far are acknowledged at once;
      otherwise nothing is sent. */
  lemma WriteAcknowledged(env: Env, c: Conn, sends: nat -> SendResult, r: AsyncResult, hello: Option<SockError>)
    requires Live(c) && c.open && c.inWrite && c.queue != [] && Drain(c.queue, sends, 0).error == None && env.accepts(c.sends)
    requires c.clientSeq == Wrap32(c.isn + 1 + |c.given|)
    ensures var c1 := Step(env, c, CanWrite(sends, r, hello));
            && c.given <= c1.given && c1.open && c1.status == c.status
            && c1.clientSeq == Wrap32(c.isn + 1 + |c1.given|)
            && c1.log == if c1.given == c.given then c.log
                         else c.log + [Packet(Ack, c.zdtunSeq, Wrap32(c.isn + 1 + |c1.given|), [], true, |c1.given|, true)]
  {
    hide *;
    WriteIs(env, c, sends, r, hello);
    var sent := Drain(c.queue, sends, 0).sent;
    NumberAfter(c.isn + 1, |c.given|, |sent|);
    GivenAfter(c.given, sent);
  }

  lemma NumberAfter(base: int, n: nat, k: nat)
    ensures Wrap32(Wrap32(base + n) + k) == Wrap32(base + (n + k))
  {
    WrapAdds(base + n, k);
  }

  lemma GivenAfter(given: bytes, sent: bytes)
    ensures |given + sent| == |given| + |sent| && given <= given + sent && (given + sent == given <==> |sent| == 0)
  {
  }

  lemma WriteIs(env: Env, c: Conn, sends: nat -> SendResult, r: AsyncResult, hello: Option<SockError>)
    requires Live(c) && c.open && c.inWrite && c.queue != [] && Drain(c.queue, sends, 0).error == None && env.accepts(c.sends)
    ensures var d := Drain(c.queue, sends, 0);
            var c1 := c.(queue := d.queue, given := c.given + d.sent, inWrite := d.queue != []);
            var seqNo := Wrap32(c.clientSeq + |d.sent|);
            Step(env, c, CanWrite(sends, r, hello)) ==
            if |d.sent| == 0 then c1
            else c1.(clientSeq := seqNo, qsize := Wrap32(c.qsize - |d.sent|), sends := c.sends + 1,
                     log := c.log + [Packet(Ack, c.zdtunSeq, seqNo, [], true, |c.given + d.sent|, true)])
  {
    var d := Drain(c.queue, sends, 0);
    var c1 := c.(queue := d.queue, given := c.given + d.sent);
    assert Live(c1) && c1.open && c1.inWrite && c1.sends == c.sends;
    hide *;
    StepFlushes(env, c, sends, r, hello);
    AfterSendIs(env, c1, |d.sent|);
    assert c1.queue == d.queue && c1.given == c.given + d.sent && c1.clientSeq == c.clientSeq && c1.qsize == c.qsize;
  }

  lemma StepFlushes(env: Env, c: Conn, sends: nat -> SendResult, r: AsyncResult, hello: Option<SockError>)
    requires c.open && c.inWrite && c.queue != [] && Drain(c.queue, sends, 0).error == None
    ensures var d := Drain(c.queue, sends, 0);
            Step(env, c, CanWrite(sends, r, hello)) == AfterSend(env, c.(queue := d.queue, given := c.given + d.sent), |d.sent|).c
  {
    hide Drain, AfterSend;
  }

  lemma AfterSendIs(env: Env, c: Conn, n: nat)
    requires Live(c) && c.open && c.inWrite && env.accepts(c.sends)
    ensures var c1, seqNo := c.(inWrite := c.queue != []), Wrap32(c.clientSeq + n);
            AfterSend(env, c, n).c ==
            if n == 0 then c1
            else c1.(clientSeq := seqNo, qsize := Wrap32(c.qsize - n), sends := c.sends + 1,
                     log := c.log + [Packet(Ack, c.zdtunSeq, seqNo, [], true, |c.given|, true)])
  {
    var c2 := Counted(c.(inWrite := c.inWrite && c.queue != []), n);
    var p := Reply(c2, Ack, []);
    assert SendToClient(env, c2, p) == Outcome(Accepted(c2, p), 0);
    hide SendToClient;
  }

  /** The j-th item is sent whole, in the call number i + j. */
  predicate Whole(q: seq<Item>, r: nat -> SendResult, i: nat, j: nat)
    requires j < |q|
  {
    r(i + j).Sent? && r(i + j).n >= |q[j].Rest()|
  }

  /** What is left, and the error, when the k-th item is not. */
  predicate StopsAt(q: seq<Item>, r: nat -> SendResult, i: nat, k: nat, left: seq<Item>, error: Option<SockError>)
    requires k < |q|
  {
    match r(i + k)
    case Again => left == q[k..] && error == None
    case SendFailed(e) => left == q[k..] && error == Some(e)
    case Sent(n) =>
      && n < |q[k].Rest()| && error == None && left != []
      && left[0].Rest() == q[k].Rest()[n..] && left[0].push == q[k].push && left[1..] == q[k + 1..]
  }

  lemma RestShifts(q: seq<Item>, r: nat -> SendResult, i: nat, j: nat, left: seq<Item>, error: Option<SockError>)
    requires j + 1 < |q|
    ensures Whole(q[1..], r, i + 1, j) == Whole(q, r, i, j + 1)
    ensures StopsAt(q[1..], r, i + 1, j, left, error) == StopsAt(q, r, i, j + 1, left, error)
  {
    assert q[1..][j] == q[j + 1] && q[1..][j..] == q[j + 1..] && q[1..][j + 1..] == q[j + 2..] && i + 1 + j == i + (j + 1);
  }

  /** All items before the first that is left were sent whole, and that one was not. */
  predicate WentOn(q: seq<Item>, r: nat -> SendResult, i: nat, left: seq<Item>, error: Option<SockError>) {
    var k := |q| - |left|;
    && 0 <= k && (forall j :: 0 <= j < k ==> Whole(q, r, i, j))
    && if k == |q| then error == None else StopsAt(q, r, i, k, left, error)
  }

  /** How far a write gets: items go out whole, in order, until send() has no room, takes only part of one, or fails; all do
      if it takes everything. */
  lemma {:induction false} WriteGoesOn(q: seq<Item>, r: nat -> SendResult, i: nat)
    ensures WentOn(q, r, i, Drain(q, r, i).queue, Drain(q, r, i).error)
  {
    hide WentOn, StopsAt, Whole, Drain;
    if q == [] || !Whole(q, r, i, 0) {
      StopsNow(q, r, i);
    } else {
      WriteGoesOn(q[1..], r, i + 1);
      DrainNext(q, r, i);
      OneMore(q, r, i, Drain(q, r, i).queue, Drain(q, r, i).error);
    }
  }

  lemma OneMore(q: seq<Item>, r: nat -> SendResult, i: nat, left: seq<Item>, error: Option<SockError>)
    requires q != [] && Whole(q, r, i, 0) && WentOn(q[1..], r, i + 1, left, error)
    ensures WentOn(q, r, i, left, error)
  {
    hide Whole, StopsAt;
    var k := |q| - 1 - |left|;
    forall j | 0 <= j < k + 1
      ensures Whole(q, r, i, j)
    {
      if j > 0 {
        RestShifts(q, r, i, j - 1, [], None);
      }
    }
    if left != [] {
      RestShifts(q, r, i, k, left, error);
    }
  }

  lemma StopsNow(q: seq<Item>, r: nat -> SendResult, i: nat)
    requires q == [] || !Whole(q, r, i, 0)
    ensures WentOn(q, r, i, Drain(q, r, i).queue, Drain(q, r, i).error)
  {
    assert q != [] ==> i + 0 == i && q[0..] == q;
  }

  lemma DrainNext(q: seq<Item>, r: nat -> SendResult, i: nat)
    requires q != [] && Whole(q, r, i, 0)
    ensures var d, e := Drain(q, r, i), Drain(q[1..], r, i + 1); d.queue == e.queue && d.error == e.error
  {
    assert i + 0 == i;
  }

  // ------------------------------------------------------------------ the codes returned

  function ErrorCode(e: SockError): int {
    if e == NetUnreachable || e == HostUnreachable || e == OtherError then -1 else 0
  }

  /** What a read returns: an error unless all went well, but nothing for an end of stream and for most socket errors. */
  lemma ReadCode(env: Env, c: Conn, r: RecvResult, fail: Option<SockError>)
    requires IsUp(c) && c.open
    ensures Readable(env, c, r, fail).rv ==
            match r
            case RecvFailed(e) => ErrorCode(e)
            case Eof => 0
            case Data(d, _) => if |d| <= c.window && env.accepts(c.sends) then 0 else -1
  {
    hide CloseConn;
    assert forall p :: env.accepts(c.sends) ==> SendToClient(env, c, p) == Outcome(Accepted(c, p), 0);
  }

  /** What a write, or the end of connect(), returns. */
  lemma WriteCode(env: Env, c: Conn, sends: nat -> SendResult, r: AsyncResult, hello: Option<SockError>)
    requires Live(c) && c.isTcp && c.open
    ensures var d := Drain(c.queue, sends, 0);
            Writable(env, c, sends, r, hello).rv ==
            if c.queue != [] then
              if d.error.Some? then ErrorCode(d.error.value) else if d.sent == [] || env.accepts(c.sends) then 0 else -1
            else if !r.AsyncDone? then -1
            else if c.mode == Socks5 then (if hello.Some? then ErrorCode(hello.value) else 0)
            else if env.accepts(c.sends) then 0 else -1
  {
    hide CloseConn, Drain;
  }

  /** A write that fails. */
  lemma WriteFails(env: Env, c: Conn, sends: nat -> SendResult, r: AsyncResult, hello: Option<SockError>)
    requires Live(c) && c.open && c.inWrite && c.queue != [] && TakesRst(env, c)
    ensures var d := Drain(c.queue, sends, 0);
            d.error.Some? ==> Step(env, c, CanWrite(sends, r, hello)) ==
                              GivenUp(c.(given := c.given + d.sent), ErrorStatus(d.error.value))
  {
    hide Drain, CloseOnError, GivenUp, ErrorStatus;
    var d := Drain(c.queue, sends, 0);
    if d.error.Some? {
      var c1 := c.(queue := d.queue, given := c.given + d.sent);
      ErrorCloses(env, c1, d.error.value);
      SameGivenUp(c1, c.(given := c.given + d.sent), ErrorStatus(d.error.value));
    }
  }

  lemma SameGivenUp(c: Conn, c1: Conn, st: Status)
    requires c1 == c.(queue := c1.queue)
    ensures GivenUp(c, st) == GivenUp(c1, st)
  {
  }

  /** connect() comes to its end: connected, or closed with the status of its error. */
  lemma ConnectEnds(env: Env, c: Conn, sends: nat -> SendResult, r: AsyncResult, hello: Option<SockError>)
    requires c.status == Connecting && c.isTcp && !c.finAckSent && c.open && c.inWrite && c.queue == [] && env.accepts(c.sends)
    ensures Step(env, c, CanWrite(sends, r, hello)) ==
            match r
            case SockOptFailed => GivenUp(c, SocketError)
            case AsyncDone => ConnectedNow(env, c, hello)
            case AsyncFailed(e) => GivenUp(c, ErrorStatus(e))
  {
    CloseGivesUp(env, c, SocketError);
    NowConnected(env, c, hello);
    hide CloseConn, CloseOnError, GivenUp, ErrorStatus, SocketSyn, ConnectedNow, Flush;
    if r.AsyncFailed? {
      ErrorCloses(env, c, r.e);
    }
  }

  // ------------------------------------------------------------------ every run: the client is told what was taken

  /** The last packet a live connection sent acknowledges up to client_seq. */
  predicate UpToDate(c: Conn) {
    Live(c) ==> Told(c) && (c.status == New ==> c.log == [])
  }

  predicate Told(c: Conn) {
    c.log != [] ==> c.log[|c.log| - 1].ackNo == c.clientSeq
  }

  lemma SendTells(env: Env, c: Conn, kind: Kind, payload: bytes)
    requires c.status != New
    ensures UpToDate(SendToClient(env, c, Reply(c, kind, payload)).c)
  {
    if env.accepts(c.sends) {
      assert SendToClient(env, c, Reply(c, kind, payload)).c == Accepted(c, Reply(c, kind, payload));
    } else {
      assert SendToClient(env, c, Reply(c, kind, payload)).c == Refused(c);
    }
  }

  lemma CloseTells(env: Env, c: Conn, st: Status)
    ensures UpToDate(CloseConn(env, c, st)) && (CloseConn(env, c, st).isTcp == c.isTcp)
  {
  }

  lemma SynTells(env: Env, c: Conn, fail: Option<SockError>)
    requires Told(c)
    ensures UpToDate(SocketSyn(env, c, fail).c)
  {
    hide CloseConn, SendToClient;
    var c1 := c.(inWrite := false, status := Connected);
    SendTells(env, c1, SynAck, []);
    if fail.Some? {
      CloseTells(env, c1, StatusOf(fail.value));
    }
  }

  lemma OpenTells(env: Env, c: Conn, seg: Segment, r: SynResult)
    requires c.status == New && c.log == []
    ensures UpToDate(OpenForSyn(env, c, seg, r).c)
  {
    hide SocketSyn, CloseConn, Shl;
    var o := Says(env, seg);
    var c1 := Opening(env, c, seg);
    SynTells(env, c1.(clientSeq := Wrap32(seg.seqNo + 1), zdtunSeq := ISS, isn := seg.seqNo), r.hello);
    if r.connect.Failed? {
      CloseTells(env, c1, StatusOf(r.connect.e));
    }
  }

  lemma SegmentTells(env: Env, c: Conn, seg: Segment)
    requires UpToDate(c) && c.status == Connected
    ensures UpToDate(TakeSegment(env, c, seg).c)
  {
    hide CloseConn, SendToClient, InSequence, IsKeepAlive, WindowAfterAck;
    CloseTells(env, c, Socks5Error);
    CloseTells(env, c, Closed);
    var c1 := c.(clientSeq := Wrap32(c.clientSeq + |seg.payload| + 1), clientClosed := true);
    SendTells(env, c1, Ack, []);
    CloseTells(env, SendAck(env, c1).c, Closed);
    AckTells(env, c, seg);
    PayloadTells(env, TakeAck(env, c, seg).c, seg);
    hide TakeAck, TakePayload;
  }

  lemma AckTells(env: Env, c: Conn, seg: Segment)
    requires UpToDate(c) && c.status == Connected
    ensures var Outcome(c1, rv) := TakeAck(env, c, seg); UpToDate(c1) && c1.status != New
  {
    hide SendToClient, IsKeepAlive, WindowAfterAck;
    SendTells(env, c, Ack, []);
    SendNotNew(env, c, Reply(c, Ack, []));
  }

  lemma SendNotNew(env: Env, c: Conn, p: Packet)
    requires c.status != New
    ensures SendToClient(env, c, p).c.status != New
  {
    if env.accepts(c.sends) {
      assert SendToClient(env, c, p).c == Accepted(c, p);
    } else {
      assert SendToClient(env, c, p).c == Refused(c);
    }
  }

  lemma PayloadTells(env: Env, c: Conn, seg: Segment)
    requires UpToDate(c) && c.status != New
    ensures UpToDate(TakePayload(env, c, seg).c)
  {
    hide SendToClient;
    SendTells(env, c.(clientSeq := Wrap32(c.clientSeq + |seg.payload|)), Ack, []);
  }

  lemma ForwardTells(env: Env, c: Conn, seg: Segment, r: SynResult)
    requires UpToDate(c) && (c.status == New ==> c.log == [])
    ensures UpToDate(Forward(env, c, seg, r))
  {
    hide OpenForSyn, TakeSegment, CloseConn;
    CloseTells(env, c, Error);
    if c.status == New {
      OpenTells(env, c, seg, r);
    } else if c.status == Connected {
      SegmentTells(env, c, seg);
    }
    CloseTells(env, HandleTcpFwd(env, c, seg, r).c, Error);
  }

  lemma WritableTells(env: Env, c: Conn, sends: nat -> SendResult, r: AsyncResult, hello: Option<SockError>)
    requires UpToDate(c) && Live(c) && c.status != New
    ensures UpToDate(Writable(env, c, sends, r, hello).c)
  {
    hide Drain, CloseConn, SendToClient, SocketSyn;
    if c.queue != [] {
      var d := Drain(c.queue, sends, 0);
      var c1 := c.(queue := d.queue, given := c.given + d.sent);
      if d.error.Some? {
        CloseTells(env, c1, StatusOf(d.error.value));
      } else {
        SendTells(env, Counted(c1.(inWrite := c1.inWrite && d.queue != []), |d.sent|), Ack, []);
      }
    } else {
      SynTells(env, c, hello);
      CloseTells(env, c, SocketError);
      if r.AsyncFailed? {
        CloseTells(env, c, StatusOf(r.e));
      }
    }
  }

  lemma RequestTells(env: Env, c: Conn, request: bytes, next: Socks5Status, fail: Option<SockError>)
    requires Told(c) && c.status != New
    ensures var c1 := SendRequest(env, c, request, next, fail).c; UpToDate(c1) && c1.status != New
  {
    hide CloseConn;
    if fail.Some? {
      CloseTells(env, c, StatusOf(fail.value));
      CloseNotNew(env, c, StatusOf(fail.value));
    }
  }

  lemma CloseNotNew(env: Env, c: Conn, st: Status)
    requires c.status != New
    ensures CloseConn(env, c, st).status != New
  {
  }

  lemma ConnectReplyTells(env: Env, c: Conn, d: bytes)
    requires Told(c) && c.status != New
    ensures var c1 := ConnectReply(env, c, d).c; UpToDate(c1) && c1.status != New
  {
    hide CloseConn, SkipBound;
    CloseTells(env, c, Socks5Error);
    CloseTells(env, c, Unreachable);
    CloseTells(env, c, SocketError);
    CloseNotNew(env, c, Socks5Error);
    CloseNotNew(env, c, Unreachable);
    CloseNotNew(env, c, SocketError);
    if |d| >= 4 {
      SkipTells(env, c.(skip := if d[3] == 1 then 6 else 18, s5 := SkipBnd), d[4..]);
    }
  }

  lemma SkipTells(env: Env, c: Conn, d: bytes)
    requires Told(c) && c.status != New
    ensures var c1 := SkipBound(env, c, d).c; UpToDate(c1) && c1.status != New
  {
    hide CloseConn;
    CloseTells(env, c, Socks5Error);
    CloseNotNew(env, c, Socks5Error);
  }

  lemma Socks5Tells(env: Env, c: Conn, d: bytes, fail: Option<SockError>)
    requires Told(c) && c.status != New
    ensures var c1 := Socks5Reply(env, c, d, fail).c; UpToDate(c1) && c1.status != New
  {
    hide CloseConn, SkipBound, ConnectReply, SendRequest, ConnectRequest, AuthRequest;
    CloseTells(env, c, Socks5Error);
    CloseNotNew(env, c, Socks5Error);
    RequestTells(env, c, ConnectRequest(env), Requested, fail);
    if env.userPass.Some? {
      RequestTells(env, c, AuthRequest(env.userPass.value.0, env.userPass.value.1), Auth, fail);
    }
    SkipTells(env, c, d);
    ConnectReplyTells(env, c, d);
  }

  lemma EofTells(env: Env, c: Conn)
    requires Told(c) && c.status != New
    ensures UpToDate(ServerEof(env, c))
  {
    hide CloseConn, SendToClient;
    SendTells(env, c, FinAck, []);
    SendNotNew(env, c, Reply(c, FinAck, []));
    var Outcome(c2, rv) := SendToClient(env, c, Reply(c, FinAck, []));
    var c1 := if c.finAckSent then c
              else c2.(zdtunSeq := if rv == 0 then Wrap32(c2.zdtunSeq + 1) else c2.zdtunSeq, finAckSent := true);
    CloseTells(env, c1.(open := false, inRead := false, inWrite := false), Closed);
  }

  lemma RelayTells(env: Env, c: Conn, d: bytes, last: bool)
    requires Told(c) && c.status != New
    ensures UpToDate(Relay(env, c, d, last).c)
  {
    hide CloseConn, SendToClient;
    CloseTells(env, c, Error);
    SendTells(env, c, if last then PushAck else Ack, d);
    SendNotNew(env, c, Reply(c, if last then PushAck else Ack, d));
  }

  lemma ReadableTells(env: Env, c: Conn, r: RecvResult, fail: Option<SockError>)
    requires UpToDate(c) && Live(c) && c.status != New
    ensures UpToDate(Readable(env, c, r, fail).c)
  {
    hide CloseConn, SendToClient, ServerEof, Relay, Socks5Reply;
    match r
    case RecvFailed(e) => CloseTells(env, c, StatusOf(e));
    case Eof => EofTells(env, c);
    case Data(d, last) =>
      var c0 := c.(fromServer := c.fromServer + d);
      RelayTells(env, c0, d, last);
      var c1 := c0.(handshake := c.handshake + |d|);
      Socks5Tells(env, c1, d, fail);
      SendTells(env, Socks5Reply(env, c1, d, fail).c, SynAck, []);
      SendNotNew(env, Socks5Reply(env, c1, d, fail).c, Reply(Socks5Reply(env, c1, d, fail).c, SynAck, []));
  }

  lemma StepTells(env: Env, c: Conn, e: Event)
    requires Ready(c) && UpToDate(c)
    ensures UpToDate(Step(env, c, e))
  {
    hide Forward, Readable, Writable, CloseConn, ItemsOk, Unsent;
    match e
    case Client(seg, syn) => ForwardTells(env, c, seg, syn);
    case CanRead(recv, fail) => if c.open { ReadableTells(env, c, recv, fail); }
    case CanWrite(sends, async, hello) => if c.open { WritableTells(env, c, sends, async, hello); }
    case Close(st) => CloseTells(env, c, st);
  }

  /** In every run, whatever is answered and refused: the last packet that a live connection sent acknowledges up to
      client_seq, so the client has been told of every byte and FIN counted there. */
  lemma {:induction false} RunTells(env: Env, mode: ProxyMode, events: seq<Event>)
    ensures UpToDate(Run(env, NewConn(true, mode), events))
  {
    if events != [] {
      var before := events[..|events| - 1];
      RunStep(env, NewConn(true, mode), events);
      hide *;
      RunTells(env, mode, before);
      RunIsReady(env, true, mode, before);
      StepTells(env, Run(env, NewConn(true, mode), before), events[|events| - 1]);
    }
  }

  /** So in every run on segments of one client stream, before the first FIN: once the client has had a packet, the last
      one it had acknowledges exactly the bytes given to send(), as long as the server socket is open. */
  lemma GivenIsAcknowledged(env: Env, mode: ProxyMode, events: seq<Event>, s: bytes)
    requires U.FromStreamIn(env, NewConn(true, mode), s, events)
    ensures var c := Run(env, NewConn(true, mode), events);
            c.open && c.log != [] ==> c.given <= s && c.log[|c.log| - 1].ackNo == Wrap32(c.isn + 1 + |c.given|)
  {
    hide Run, U.FromStreamIn;
    var c := Run(env, NewConn(true, mode), events);
    U.RunIsUp(env, true, mode, events, s);
    RunTells(env, mode, events);
    RunIsReady(env, true, mode, events);
    if c.open {
      OpenIsLive(c);
    }
    hide Unsent, ItemsOk, U.AcksExact;
  }

  lemma OpenIsLive(c: Conn)
    requires Ready(c) && c.open
    ensures Live(c)
  {
    hide ItemsOk, Unsent;
  }

  // ------------------------------------------------------------------ every event: what a refusal leads to

  /** The connection is over, holds nothing, and will not send a RST. */
  predicate Over(c: Conn) {
    !Live(c) && !c.open && !c.inRead && !c.inWrite && c.queue == [] && c.finAckSent
  }

  /** From `c` on, either nothing was handed to the client, or one packet that it refused, and that was the end. */
  predicate RefusedOnce(c: Conn, c1: Conn) {
    c1.isTcp && c1.log == c.log && (c1.sends == c.sends || (c1.sends == c.sends + 1 && Over(c1)))
  }

  /** It went on without a packet, but in what the client does not see. */
  predicate SameSeen(c: Conn, c1: Conn) {
    c1.isTcp && c1.log == c.log && c1.sends == c.sends
  }

  lemma NothingSent(c: Conn, c1: Conn)
    requires SameSeen(c, c1)
    ensures RefusedOnce(c, c1)
  {
  }

  lemma SendRefused(env: Env, c: Conn, c1: Conn, p: Packet)
    requires SameSeen(c, c1) && Live(c1) && !env.accepts(c.sends)
    ensures var o := SendToClient(env, c1, p); RefusedOnce(c, o.c) && Over(o.c) && o.rv == -1 && o.c.status == ClientError
  {
    assert SendToClient(env, c1, p) == Outcome(Refused(c1), -1);
  }

  lemma CloseRefused(env: Env, c: Conn, c1: Conn, st: Status)
    requires SameSeen(c, c1) && !env.accepts(c.sends)
    ensures var c2 := CloseConn(env, c1, st); RefusedOnce(c, c2) && !Live(c2)
    ensures Live(c1) && !c1.finAckSent ==>
              CloseConn(env, c1, st).status == if st in {New, Connecting, Connected} then Closed else st
  {
    var c2 := c1.(open := false, inRead := false, inWrite := false);
    if Live(c1) && !c1.finAckSent {
      SendRefused(env, c, c2, Reply(c2, RstAck, []));
    }
    hide SendToClient;
  }

  lemma SynRefused(env: Env, c: Conn, c1: Conn, hello: Option<SockError>)
    requires SameSeen(c, c1) && Live(c1) && !env.accepts(c.sends)
    ensures var o := SocketSyn(env, c1, hello); RefusedOnce(c, o.c)
  {
    var c2 := c1.(inWrite := false, status := Connected);
    SendRefused(env, c, c2, Reply(c2, SynAck, []));
    if hello.Some? {
      CloseRefused(env, c, c2, StatusOf(hello.value));
    }
    hide SendToClient, CloseConn;
  }

  lemma RefusedThenClosed(env: Env, c: Conn, c1: Conn, st: Status)
    requires RefusedOnce(c, c1) && !env.accepts(c.sends)
    ensures RefusedOnce(c, CloseConn(env, c1, st))
  {
    if Live(c1) {
      CloseRefused(env, c, c1, st);
    }
    hide SendToClient;
  }

  lemma OpenRefused(env: Env, c: Conn, seg: Segment, r: SynResult)
    requires c.isTcp && c.status == New && !env.accepts(c.sends)
    ensures RefusedOnce(c, OpenForSyn(env, c, seg, r).c)
  {
    var c1 := Opening(env, c, seg);
    var c2 := c1.(clientSeq := Wrap32(seg.seqNo + 1), zdtunSeq := ISS, isn := seg.seqNo);
    OpenIs(env, c, seg, r);
    assert SameSeen(c, c1) && SameSeen(c, c2) && Live(c2) && SameSeen(c, c2.(status := Connecting, inWrite := true));
    hide *;
    if !r.socketOk {
      NothingSent(c, c.(status := SocketError));
    } else if r.connect.Failed? {
      CloseRefused(env, c, c1, StatusOf(r.connect.e));
    } else if r.connect.Done? {
      SynRefused(env, c, c2, r.hello);
    } else {
      NothingSent(c, c2.(status := Connecting, inWrite := true));
    }
  }

  lemma OpenIs(env: Env, c: Conn, seg: Segment, r: SynResult)
    ensures var c1 := Opening(env, c, seg);
            var c2 := c1.(clientSeq := Wrap32(seg.seqNo + 1), zdtunSeq := ISS, isn := seg.seqNo);
            OpenForSyn(env, c, seg, r).c ==
            if !r.socketOk then c.(status := SocketError)
            else match r.connect
                 case Failed(e) => CloseConn(env, c1, StatusOf(e))
                 case Done => SocketSyn(env, c2, r.hello).c
                 case InProgress => c2.(status := Connecting, inWrite := true)
  {
    hide SocketSyn, CloseConn, Shl, StatusOf, TcpOptions.Parse;
  }

  lemma SegmentAnswerRefused(env: Env, c: Conn, seg: Segment)
    requires c.isTcp && c.status == Connected && !env.accepts(c.sends)
    ensures RefusedOnce(c, TakeSegment(env, c, seg).c)
  {
    var c1 := c.(clientSeq := Wrap32(c.clientSeq + |seg.payload| + 1), clientClosed := true);
    CloseRefused(env, c, c, Socks5Error);
    CloseRefused(env, c, c, Closed);
    SendRefused(env, c, c1, Reply(c1, Ack, []));
    RefusedThenClosed(env, c, SendAck(env, c1).c, Closed);
    SendRefused(env, c, c, Reply(c, Ack, []));
    var c2 := Rewindow(c, seg);
    var c3 := c.(clientSeq := Wrap32(c.clientSeq + |seg.payload|));
    SendRefused(env, c, c3, Reply(c3, Ack, []));
    NothingSent(c, c);
    NothingSent(c, c2);
    NothingSent(c, Enqueue(c, seg.payload, seg.psh));
    NothingSent(c, Enqueue(c2, seg.payload, seg.psh));
    hide SendToClient, CloseConn, InSequence, IsKeepAlive, Rewindow, Enqueue, Over, RefusedOnce, SameSeen;
  }

  lemma ForwardRefused(env: Env, c: Conn, seg: Segment, r: SynResult)
    requires c.isTcp && !env.accepts(c.sends)
    ensures RefusedOnce(c, Forward(env, c, seg, r))
  {
    hide OpenForSyn, TakeSegment, CloseConn;
    CloseRefused(env, c, c, Error);
    if c.status == New {
      OpenRefused(env, c, seg, r);
    } else if c.status == Connected {
      SegmentAnswerRefused(env, c, seg);
    }
    if Live(c) {
      RefusedThenClosed(env, c, HandleTcpFwd(env, c, seg, r).c, Error);
    }
  }

  lemma WritableRefused(env: Env, c: Conn, sends: nat -> SendResult, r: AsyncResult, hello: Option<SockError>)
    requires c.isTcp && Live(c) && !env.accepts(c.sends)
    ensures RefusedOnce(c, Writable(env, c, sends, r, hello).c)
  {
    if c.queue != [] {
      FlushRefused(env, c, sends);
    }
    SynRefused(env, c, c, hello);
    CloseRefused(env, c, c, SocketError);
    if r.AsyncFailed? {
      CloseRefused(env, c, c, StatusOf(r.e));
    }
    hide Flush, CloseConn, SendToClient, SocketSyn, RefusedOnce, SameSeen, StatusOf;
  }

  lemma FlushRefused(env: Env, c: Conn, sends: nat -> SendResult)
    requires c.isTcp && Live(c) && !env.accepts(c.sends)
    ensures RefusedOnce(c, Flush(env, c, sends).c)
  {
    var d := Drain(c.queue, sends, 0);
    var c1 := c.(queue := d.queue, given := c.given + d.sent);
    if d.error.Some? {
      CloseRefused(env, c, c1, StatusOf(d.error.value));
    }
    var c2 := c1.(inWrite := c1.inWrite && d.queue != []);
    var c3 := Counted(c2, |d.sent|);
    SendRefused(env, c, c3, Reply(c3, Ack, []));
    NothingSent(c, c2);
    hide Drain, CloseConn, SendToClient, RefusedOnce, SameSeen, StatusOf, Over;
  }

  lemma ConnectReplyRefused(env: Env, c: Conn, c1: Conn, d: bytes)
    requires SameSeen(c, c1) && !env.accepts(c.sends)
    ensures var o := ConnectReply(env, c1, d); RefusedOnce(c, o.c)
  {
    CloseRefused(env, c, c1, Socks5Error);
    CloseRefused(env, c, c1, Unreachable);
    CloseRefused(env, c, c1, SocketError);
    if |d| >= 4 {
      SkipRefused(env, c, c1.(skip := if d[3] == 1 then 6 else 18, s5 := SkipBnd), d[4..]);
    }
    hide CloseConn, SkipBound, Over;
  }

  lemma SkipRefused(env: Env, c: Conn, c1: Conn, d: bytes)
    requires SameSeen(c, c1) && !env.accepts(c.sends)
    ensures var o := SkipBound(env, c1, d); RefusedOnce(c, o.c)
  {
    CloseRefused(env, c, c1, Socks5Error);
    hide CloseConn, Over;
  }

  lemma RequestRefused(env: Env, c: Conn, c1: Conn, request: bytes, next: Socks5Status, fail: Option<SockError>)
    requires SameSeen(c, c1) && !env.accepts(c.sends)
    ensures RefusedOnce(c, SendRequest(env, c1, request, next, fail).c)
  {
    NothingSent(c, c1.(requests := c1.requests + [request], s5 := next));
    if fail.Some? {
      CloseRefused(env, c, c1, StatusOf(fail.value));
    }
    hide CloseConn, RefusedOnce, SameSeen, StatusOf;
  }

  lemma HandshakeRefused(env: Env, c: Conn, c1: Conn, d: bytes, fail: Option<SockError>)
    requires SameSeen(c, c1) && !env.accepts(c.sends)
    ensures RefusedOnce(c, Socks5Reply(env, c1, d, fail).c)
  {
    CloseRefused(env, c, c1, Socks5Error);
    RequestRefused(env, c, c1, ConnectRequest(env), Requested, fail);
    if env.userPass.Some? {
      RequestRefused(env, c, c1, AuthRequest(env.userPass.value.0, env.userPass.value.1), Auth, fail);
    }
    SkipRefused(env, c, c1, d);
    ConnectReplyRefused(env, c, c1, d);
    hide CloseConn, SkipBound, ConnectReply, SendRequest, ConnectRequest, AuthRequest, RefusedOnce, SameSeen;
  }

  lemma ReadableRefused(env: Env, c: Conn, r: RecvResult, fail: Option<SockError>)
    requires c.isTcp && Live(c) && !env.accepts(c.sends)
    ensures RefusedOnce(c, Readable(env, c, r, fail).c)
  {
    match r
    case RecvFailed(e) =>
      CloseRefused(env, c, c, StatusOf(e));
      hide CloseConn, RefusedOnce;
    case Eof =>
      EndRefused(env, c);
      hide ServerEof, RefusedOnce;
    case Data(d, last) => DataRefused(env, c, d, last, fail);
  }

  lemma DataRefused(env: Env, c: Conn, d: bytes, last: bool, fail: Option<SockError>)
    requires c.isTcp && Live(c) && !env.accepts(c.sends)
    ensures RefusedOnce(c, Readable(env, c, Data(d, last), fail).c)
  {
    var c0, c1 := c.(fromServer := c.fromServer + d), Heard(c, d);
    assert SameSeen(c, c0) && SameSeen(c, c1) && Live(c0) && Live(c1) && c1.s5 == c.s5;
    DataIs(env, c, d, last, fail);
    hide *;
    if c.mode == Socks5 && c.s5 != Established {
      var o := Socks5Reply(env, c1, d, fail);
      HandshakeRefused(env, c, c1, d, fail);
      if o.rv == 0 && o.c.s5 == Established {
        GrantedLives(env, c1, d, fail);
        SynAckRefused(env, c, o.c);
      }
    } else {
      RelayRefused(env, c, c0, d, last);
    }
  }

  lemma DataIs(env: Env, c: Conn, d: bytes, last: bool, fail: Option<SockError>)
    ensures var o := Socks5Reply(env, Heard(c, d), d, fail);
            Readable(env, c, Data(d, last), fail).c ==
            if c.mode == Socks5 && c.s5 != Established then
              if o.rv == 0 && o.c.s5 == Established then SendSynAck(env, o.c).c else o.c
            else Relay(env, c.(fromServer := c.fromServer + d), d, last).c
  {
    hide Socks5Reply, SendSynAck, Relay;
  }

  lemma CloseKeepsS5(env: Env, c: Conn, st: Status)
    ensures CloseConn(env, c, st).s5 == c.s5
  {
  }

  lemma SkipLives(env: Env, c: Conn, d: bytes)
    requires Live(c) && c.s5 == SkipBnd
    ensures var o := SkipBound(env, c, d); o.c.s5 == Established ==> Live(o.c)
  {
    CloseKeepsS5(env, c, Socks5Error);
    hide CloseConn;
  }

  lemma ConnectReplyLives(env: Env, c: Conn, d: bytes)
    requires Live(c) && c.s5 == Requested
    ensures var o := ConnectReply(env, c, d); o.c.s5 == Established ==> Live(o.c)
  {
    CloseKeepsS5(env, c, Socks5Error);
    CloseKeepsS5(env, c, Unreachable);
    CloseKeepsS5(env, c, SocketError);
    if |d| >= 4 {
      SkipLives(env, c.(skip := if d[3] == 1 then 6 else 18, s5 := SkipBnd), d[4..]);
    }
    hide CloseConn, SkipBound;
  }

  /** A handshake that is complete has not ended the connection. */
  lemma GrantedLives(env: Env, c: Conn, d: bytes, fail: Option<SockError>)
    requires Live(c) && c.s5 != Established
    ensures var o := Socks5Reply(env, c, d, fail); o.c.s5 == Established ==> Live(o.c)
  {
    hide CloseConn, SendRequest, ConnectRequest, AuthRequest, SkipBound, ConnectReply, Live;
    if c.s5 == Requested {
      ConnectReplyLives(env, c, d);
    } else if c.s5 == SkipBnd {
      SkipLives(env, c, d);
    } else {
      CloseKeepsS5(env, c, Socks5Error);
      RequestKeepsS5(env, c, ConnectRequest(env), Requested, fail);
      if env.userPass.Some? {
        RequestKeepsS5(env, c, AuthRequest(env.userPass.value.0, env.userPass.value.1), Auth, fail);
      }
    }
  }

  lemma RequestKeepsS5(env: Env, c: Conn, request: bytes, next: Socks5Status, fail: Option<SockError>)
    ensures var c1 := SendRequest(env, c, request, next, fail).c; c1.s5 == c.s5 || c1.s5 == next
  {
    hide CloseOnError;
    if fail.Some? {
      ErrorKeepsS5(env, c, fail.value);
    }
  }

  lemma ErrorKeepsS5(env: Env, c: Conn, e: SockError)
    ensures CloseOnError(env, c, e).c.s5 == c.s5
  {
    CloseKeepsS5(env, c, StatusOf(e));
    hide CloseConn;
  }

  lemma RelayRefused(env: Env, c: Conn, c1: Conn, d: bytes, last: bool)
    requires SameSeen(c, c1) && Live(c1) && !env.accepts(c.sends)
    ensures RefusedOnce(c, Relay(env, c1, d, last).c)
  {
    CloseRefused(env, c, c1, Error);
    SendRefused(env, c, c1, Reply(c1, if last then PushAck else Ack, d));
    hide CloseConn, SendToClient, RefusedOnce, SameSeen;
  }

  /** Had the connection been given up on the way, the SYN+ACK would still be built; but then the reply is no success. */
  lemma SynAckRefused(env: Env, c: Conn, c1: Conn)
    requires RefusedOnce(c, c1) && Live(c1) && !env.accepts(c.sends)
    ensures RefusedOnce(c, SendSynAck(env, c1).c)
  {
    SendRefused(env, c, c1, Reply(c1, SynAck, []));
    hide SendToClient;
  }

  lemma EndRefused(env: Env, c: Conn)
    requires c.isTcp && Live(c) && !env.accepts(c.sends)
    ensures RefusedOnce(c, ServerEof(env, c))
  {
    SendRefused(env, c, c, Reply(c, FinAck, []));
    var o := SendToClient(env, c, Reply(c, FinAck, []));
    var c1 := if c.finAckSent then c else o.c.(finAckSent := true);
    RefusedThenClosed(env, c, c1.(open := false, inRead := false, inWrite := false), Closed);
    hide SendToClient, CloseConn;
  }

  /** Whatever happens while the client refuses packets: it is handed one at most, and that is the end of the connection. */
  lemma RefusalEnds(env: Env, c: Conn, e: Event)
    requires Ready(c) && c.isTcp && !env.accepts(c.sends)
    ensures RefusedOnce(c, Step(env, c, e))
  {
    hide Forward, Readable, Writable, CloseConn, ItemsOk, Unsent;
    match e
    case Client(seg, syn) => ForwardRefused(env, c, seg, syn);
    case CanRead(recv, fail) => if c.open { ReadableRefused(env, c, recv, fail); }
    case CanWrite(sends, async, hello) => if c.open { WritableRefused(env, c, sends, async, hello); }
    case Close(st) => CloseRefused(env, c, c, st);
  }
}
