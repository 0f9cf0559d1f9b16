/** The SOCKS5 handshake (RFC 1928, RFC 1929): what is sent, what is read, and when the client gets its SYN+ACK. */
module TcpSocks5 {
  import opened Words
  import opened TcpProxy
  import opened TcpReadiness
  import opened TcpDownstream

  // ------------------------------------------------------------------ the connect reply, in pieces

  /** The first four bytes of a reply that grants the request (section 6 of RFC 1928), with an IP address bound. */
  predicate Grants(r: bytes) {
    |r| >= 4 && r[0] == 5 && r[1] == 0 && (r[3] == 1 || r[3] == 4)
  }

  /** The length of a reply that starts with `r`: header, IPv4 or IPv6 address, port. */
  function ReplyLength(r: bytes): nat
    requires Grants(r)
  {
    if r[3] == 1 then 10 else 22
  }

  /** The connection waits for the connect reply, and its socket is read. */
  predicate AwaitsReply(c: Conn) {
    c.mode == Socks5 && c.status == Connected && c.open && c.inRead && c.s5 == Requested
  }

  /** The events in which recv() returns the pieces one after the other. */
  function Reads(pieces: seq<bytes>): seq<Event> {
    seq(|pieces|, i requires 0 <= i < |pieces| => CanRead(Data(pieces[i], false), None))
  }

  /** The connection after the first bytes `got` of a granting reply: the rest is skipped, and the SYN+ACK is sent
      when nothing is left to skip. */
  predicate ReplyTaken(env: Env, c: Conn, c1: Conn, got: bytes)
    requires Grants(got)
  {
    var n := ReplyLength(got);
    && |got| <= n
    && c1.fromServer == c.fromServer + got && c1.handshake == c.handshake + |got|
    && c1.mode == Socks5 && c1.status == Connected && c1.open && c1.inRead && c1.requests == c.requests
    && (if |got| < n then c1.s5 == SkipBnd && c1.skip == n - |got| && c1.log == c.log && c1.sends == c.sends
        else c1.s5 == Established && c1.log == c.log + [Packet(SynAck, c.zdtunSeq, c.clientSeq, [], true, |c.given|, true)])
    && c1.clientSeq == c.clientSeq && c1.given == c.given
    && c1.zdtunSeq == if |got| < n then c.zdtunSeq else Wrap32(c.zdtunSeq + 1)
  }

  /** Handshake bytes handled without error: the SYN+ACK follows if that was all. */
  lemma AfterReply(env: Env, c: Conn, d: bytes, c1: Conn)
    requires c.Socks5InProgress() && c.open && c.inRead && c1.open && env.accepts(c1.sends)
    requires Socks5Reply(env, c.(fromServer := c.fromServer + d, handshake := c.handshake + |d|), d, None) == Outcome(c1, 0)
    ensures Step(env, c, CanRead(Data(d, false), None)) ==
            if c1.s5 == Established then
              c1.(sends := c1.sends + 1, log := c1.log + [Reply(c1, SynAck, [])], zdtunSeq := Wrap32(c1.zdtunSeq + 1))
            else c1
  {
    hide CloseConn, Socks5Reply, Refused;
    var p := Reply(c1, SynAck, []);
    assert SendToClient(env, c1, p) == Outcome(Accepted(c1, p), 0);
  }

  lemma FirstReply(env: Env, c: Conn, d: bytes)
    requires c.s5 == Requested && Grants(d) && |d| <= ReplyLength(d)
    ensures var n := ReplyLength(d);
            Socks5Reply(env, c, d, None) == Outcome(c.(skip := n - |d|, s5 := if |d| == n then Established else SkipBnd), 0)
  {
    hide CloseConn;
  }

  lemma NextReply(env: Env, c: Conn, d: bytes)
    requires c.s5 == SkipBnd && |d| <= c.skip
    ensures Socks5Reply(env, c, d, None) ==
            Outcome(c.(skip := c.skip - |d|, s5 := if |d| == c.skip then Established else SkipBnd), 0)
  {
    hide CloseConn;
  }

  lemma FirstPiece(env: Env, c: Conn, d: bytes)
    requires AwaitsReply(c) && Grants(d) && |d| <= ReplyLength(d) && env.accepts(c.sends)
    ensures ReplyTaken(env, c, Step(env, c, CanRead(Data(d, false), None)), d)
  {
    hide Socks5Reply, Step;
    var c0 := c.(fromServer := c.fromServer + d, handshake := c.handshake + |d|);
    FirstReply(env, c0, d);
    var n := ReplyLength(d);
    AfterReply(env, c, d, c0.(skip := n - |d|, s5 := if |d| == n then Established else SkipBnd));
  }

  lemma NextPiece(env: Env, c: Conn, c1: Conn, got: bytes, d: bytes)
    requires Grants(got) && ReplyTaken(env, c, c1, got) && |got| < ReplyLength(got)
    requires d != [] && |got| + |d| <= ReplyLength(got) && env.accepts(c.sends)
    ensures Grants(got + d) && ReplyTaken(env, c, Step(env, c1, CanRead(Data(d, false), None)), got + d)
  {
    hide Socks5Reply, Step;
    var c2 := c1.(fromServer := c1.fromServer + d, handshake := c1.handshake + |d|);
    NextReply(env, c2, d);
    ConcatAssoc(c.fromServer, got, d);
    var n := ReplyLength(got);
    AfterReply(env, c1, d, c2.(skip := n - |got| - |d|, s5 := if |got| + |d| == n then Established else SkipBnd));
  }

  /** A piece that goes past the end of the reply ends the connection. */
  lemma PastTheEnd(env: Env, c: Conn, d: bytes)
    requires c.mode == Socks5 && c.status == Connected && c.open && c.inRead
    requires (c.s5 == SkipBnd && |d| > c.skip) || (c.s5 == Requested && Grants(d) && |d| > ReplyLength(d))
    ensures var c1 := Step(env, c, CanRead(Data(d, false), None)); c1.status == Socks5Error && !c1.open
  {
    var c0 := c.(fromServer := c.fromServer + d, handshake := c.handshake + |d|);
    if c.s5 == Requested {
      GrantedReply(env, c0, d);
      CloseStatus(env, c0.(skip := ReplyLength(d) - 4, s5 := SkipBnd));
    } else {
      CloseStatus(env, c0);
    }
    hide CloseConn, ConnectReply, Grants, ReplyLength;
  }

  lemma CloseStatus(env: Env, c: Conn)
    requires !Dead(c.status)
    ensures var c1 := CloseConn(env, c, Socks5Error); c1.status == Socks5Error && !c1.open && c1.s5 == c.s5
  {
  }

  /** A granting reply may come in any pieces, the first with its 4-byte header: as long as they end where it does or
      before, the connection skips what is left, and is established, with the one SYN+ACK, exactly when all 10 or 22
      bytes are read. If the last one brings bytes from behind the reply too, the connection is given up. */
  lemma {:induction false} ReplyInAnySplit(env: Env, c: Conn, pieces: seq<bytes>)
    requires AwaitsReply(c) && env.accepts(c.sends)
    requires pieces != [] && (forall i :: 0 <= i < |pieces| ==> pieces[i] != [])
    requires Grants(pieces[0]) && |Flat(pieces[..|pieces| - 1])| < ReplyLength(pieces[0])
    ensures var c1 := Run(env, c, Reads(pieces));
            && Grants(Flat(pieces)) && ReplyLength(Flat(pieces)) == ReplyLength(pieces[0])
            && (if |Flat(pieces)| <= ReplyLength(pieces[0]) then ReplyTaken(env, c, c1, Flat(pieces))
                else c1.status == Socks5Error && !c1.open)
  {
    var n := |pieces| - 1;
    var before, last := pieces[..n], pieces[n];
    ReadsStep(env, c, pieces);
    FlatNext(pieces, n);
    assert pieces[..n + 1] == pieces;
    if n == 0 {
      NothingBefore(env, c, pieces);
      hide *;
      LastPiece(env, c, c, [], last);
    } else {
      FlatNext(pieces, n - 1);
      assert before[..n - 1] == pieces[..n - 1];
      SameHeader(pieces[0], pieces);
      SameHeader(pieces[0], before);
      SameLength(pieces[0], Flat(before));
      SameLength(pieces[0], Flat(pieces));
      hide *;
      ReplyInAnySplit(env, c, before);
      LastPiece(env, c, Run(env, c, Reads(before)), Flat(before), last);
    }
  }

  /** The piece after the bytes `got` of the reply, which did not end with them. */
  lemma LastPiece(env: Env, c: Conn, c1: Conn, got: bytes, d: bytes)
    requires AwaitsReply(c) && env.accepts(c.sends) && d != []
    requires if got == [] then c1 == c && Grants(d)
             else Grants(got) && |got| < ReplyLength(got) && ReplyTaken(env, c, c1, got)
    ensures var c2, n := Step(env, c1, CanRead(Data(d, false), None)), ReplyLength(if got == [] then d else got);
            && Grants(got + d) && ReplyLength(got + d) == n
            && (if |got + d| <= n then ReplyTaken(env, c, c2, got + d) else c2.status == Socks5Error && !c2.open)
  {
    hide Step;
    if got == [] {
      assert got + d == d;
      if |d| <= ReplyLength(d) {
        FirstPiece(env, c, d);
      } else {
        PastTheEnd(env, c, d);
      }
    } else {
      assert (got + d)[..4] == got[..4];
      SameLength(got, got + d);
      if |got| + |d| <= ReplyLength(got) {
        NextPiece(env, c, c1, got, d);
      } else {
        PastTheEnd(env, c1, d);
      }
    }
  }

  lemma ReadsStep(env: Env, c: Conn, pieces: seq<bytes>)
    requires pieces != []
    ensures var n := |pieces| - 1;
            Run(env, c, Reads(pieces)) == Step(env, Run(env, c, Reads(pieces[..n])), CanRead(Data(pieces[n], false), None))
  {
    hide Step, Run;
    assert Reads(pieces)[..|pieces| - 1] == Reads(pieces[..|pieces| - 1]);
    RunStep(env, c, Reads(pieces));
  }

  lemma NothingBefore(env: Env, c: Conn, pieces: seq<bytes>)
    requires |pieces| == 1
    ensures Flat(pieces) == pieces[0] && Run(env, c, Reads(pieces[..0])) == c
  {
    assert Flat(pieces[..0]) == [];
  }

  lemma SameLength(a: bytes, b: bytes)
    requires Grants(a) && |b| >= 4 && a[..4] == b[..4]
    ensures Grants(b) && ReplyLength(b) == ReplyLength(a)
  {
    assert forall i :: 0 <= i < 4 ==> a[..4][i] == a[i] && b[..4][i] == b[i];
  }

  lemma {:induction false} SameHeader(first: bytes, pieces: seq<bytes>)
    requires pieces != [] && pieces[0] == first && |first| >= 4
    ensures |Flat(pieces)| >= 4 && Flat(pieces)[..4] == first[..4]
  {
    if |pieces| == 1 {
      assert Flat(pieces[..0]) == [];
    } else {
      SameHeader(first, pieces[..|pieces| - 1]);
    }
  }

  /** A granting reply in two or more pieces gets past its first piece exactly when that holds the 4-byte header. */
  lemma FirstPieceNeedsHeader(env: Env, c: Conn, reply: bytes, n: nat)
    requires AwaitsReply(c) && Grants(reply) && |reply| == ReplyLength(reply) && 0 < n < |reply|
    requires env.accepts(c.sends)
    ensures var c1 := Step(env, c, CanRead(Data(reply[..n], false), None));
            (n >= 4 ==> c1.s5 == SkipBnd && c1.status == Connected) && (n < 4 ==> c1.status == Socks5Error && !c1.open)
  {
    if n >= 4 {
      FirstPiece(env, c, reply[..n]);
    }
  }

  // ------------------------------------------------------------------ the whole handshake, over every run

  function GreetingRequests(env: Env, greeting: bytes): seq<bytes> {
    if greeting == [5, 0] then [HelloRequest(env), ConnectRequest(env)]
    else if env.userPass.Some? then
      [HelloRequest(env), AuthRequest(env.userPass.value.0, env.userPass.value.1), ConnectRequest(env)]
    else []
  }

  /** What the proxy answers before the connect reply: no authentication, or username/password with success. */
  predicate Greets(env: Env, g: bytes) {
    || g == [5, 0]
    || (env.userPass.Some? && |g| >= 4 && g[0] == 5 && g[1] == 2 && g[2] == 1 && g[3] == 0)
  }

  /** The first `k` handshake bytes are a greeting, and the others the start of a granting connect reply. */
  predicate HandshakeAt(env: Env, hs: bytes, k: nat) {
    k <= |hs| && Greets(env, hs[..k]) && Grants(hs[k..])
  }

  /** The requests sent and the bytes read agree with the state of the handshake. */
  ghost predicate Shake(env: Env, c: Conn) {
    && c.mode == Socks5
    && c.handshake <= |c.fromServer|
    && (!Dead(c.status) && (c.status != Connected || c.s5 != Established) ==> c.handshake == |c.fromServer|)
    && (c.status == New || c.status == Connecting ==> c.s5 == Hello && c.requests == [] && c.handshake == 0)
    && (c.status == Connected ==>
         var hs := c.fromServer[..c.handshake];
         match c.s5
         case Hello => hs == [] && c.requests == [HelloRequest(env)]
         case Auth =>
           && hs == [5, 2] && env.userPass.Some?
           && c.requests == [HelloRequest(env), AuthRequest(env.userPass.value.0, env.userPass.value.1)]
         case Requested => Greets(env, hs) && c.requests == GreetingRequests(env, hs)
         case SkipBnd => exists k :: InReply(env, c, hs, k, c.skip) && c.skip > 0
         case Established => exists k :: InReply(env, c, hs, k, 0))
  }

  /** Of the reply that starts at `k`, `left` bytes are still to come. */
  predicate InReply(env: Env, c: Conn, hs: bytes, k: nat, left: nat) {
    && HandshakeAt(env, hs, k) && c.requests == GreetingRequests(env, hs[..k])
    && |hs| - k + left == ReplyLength(hs[k..])
  }

  /** A SOCKS5 connection that is established sent the greeting, the credentials if asked for them, and the request,
      in this order, and read a greeting and one whole granting reply. */
  ghost predicate HandshakeDone(env: Env, c: Conn) {
    c.handshake <= |c.fromServer| && exists k :: InReply(env, c, c.fromServer[..c.handshake], k, 0)
  }

  // Only recv() of handshake bytes and the connection becoming up move the handshake.

  predicate SameShake(c: Conn, c1: Conn) {
    && c1.mode == c.mode && c1.fromServer == c.fromServer && c1.handshake == c.handshake
    && (Dead(c1.status) || (c1.status == c.status && c1.s5 == c.s5 && c1.requests == c.requests && c1.skip == c.skip))
  }

  lemma ShakeStays(env: Env, c: Conn, c1: Conn)
    requires Shake(env, c) && SameShake(c, c1)
    ensures Shake(env, c1)
  {
    hide GreetingRequests, Greets, Grants, ReplyLength;
    if c1.status == Connected && (c1.s5 == SkipBnd || c1.s5 == Established) {
      var hs := c.fromServer[..c.handshake];
      var left := if c.s5 == SkipBnd then c.skip else 0;
      var k: nat :| InReply(env, c, hs, k, left);
      assert InReply(env, c1, hs, k, left);
    }
  }

  lemma SendShakes(env: Env, c: Conn, p: Packet)
    ensures SameShake(c, SendToClient(env, c, p).c)
  {
    if env.accepts(c.sends) {
      assert SendToClient(env, c, p).c == Accepted(c, p);
    }
  }

  lemma CloseShakes(env: Env, c: Conn, st: Status)
    ensures SameShake(c, CloseConn(env, c, st)) && Dead(CloseConn(env, c, st).status)
  {
  }

  lemma SynAckShakes(env: Env, c: Conn)
    ensures SameShake(c, SendSynAck(env, c).c)
  {
    hide SendToClient;
    SendShakes(env, c, Reply(c, SynAck, []));
  }

  lemma SocketSynShakes(env: Env, c: Conn, fail: Option<SockError>)
    requires c.mode == Socks5 && c.handshake == 0 && c.fromServer == [] && c.requests == []
    ensures Shake(env, SocketSyn(env, c, fail).c)
  {
    hide CloseConn, SendSynAck, HelloRequest;
    var c1 := c.(inWrite := false, status := Connected);
    SynAckShakes(env, c1);
    if fail.Some? {
      CloseShakes(env, c1, StatusOf(fail.value));
    }
  }

  lemma OpenShakes(env: Env, c: Conn, seg: Segment, r: SynResult)
    requires Shake(env, c) && c.status == New
    ensures Shake(env, OpenForSyn(env, c, seg, r).c)
  {
    hide SocketSyn, CloseConn, Shl;
    if r.socketOk {
      var o := TcpProxy.TcpOptions.Parse(seg.options, TcpProxy.TcpOptions.Parsed(env.defaultMss, 0));
      var c1 := c.(open := true, inRead := true, window := Shl(seg.win, o.scale), scale := o.scale, mss := o.mss);
      var c2 := c1.(clientSeq := Wrap32(seg.seqNo + 1), zdtunSeq := ISS, isn := seg.seqNo);
      SocketSynShakes(env, c2, r.hello);
      if r.connect.Failed? {
        CloseShakes(env, c1, StatusOf(r.connect.e));
      }
    }
  }

  lemma FinShakes(env: Env, c: Conn, seg: Segment)
    ensures SameShake(c, ClientFin(env, c, seg).c)
  {
    hide SendToClient, CloseConn;
    var c1 := c.(clientSeq := Wrap32(c.clientSeq + |seg.payload| + 1), clientClosed := true);
    SendShakes(env, c1, Reply(c1, Ack, []));
    CloseShakes(env, SendAck(env, c1).c, Closed);
  }

  lemma PayloadShakes(env: Env, c: Conn, seg: Segment)
    ensures SameShake(c, TakePayload(env, c, seg).c)
  {
    hide SendToClient;
    var c1 := c.(clientSeq := Wrap32(c.clientSeq + |seg.payload|));
    SendShakes(env, c1, Reply(c1, Ack, []));
  }

  lemma AckShakes(env: Env, c: Conn, seg: Segment)
    ensures SameShake(c, TakeAck(env, c, seg).c)
  {
    hide SendToClient, IsKeepAlive, WindowAfterAck;
    SendShakes(env, c, Reply(c, Ack, []));
  }

  lemma SegmentShakes(env: Env, c: Conn, seg: Segment)
    ensures SameShake(c, TakeSegment(env, c, seg).c)
  {
    hide CloseConn, InSequence, ClientFin, TakeAck, TakePayload;
    CloseShakes(env, c, Socks5Error);
    CloseShakes(env, c, Closed);
    FinShakes(env, c, seg);
    AckShakes(env, c, seg);
    PayloadShakes(env, TakeAck(env, c, seg).c, seg);
  }

  lemma ForwardShakes(env: Env, c: Conn, seg: Segment, r: SynResult)
    requires Shake(env, c)
    ensures Shake(env, Forward(env, c, seg, r))
  {
    hide OpenForSyn, TakeSegment, CloseConn, Shake, SameShake;
    CloseShakes(env, c, Error);
    ShakeStays(env, c, CloseConn(env, c, Error));
    SegmentShakes(env, c, seg);
    ShakeStays(env, c, TakeSegment(env, c, seg).c);
    if c.status == New {
      OpenShakes(env, c, seg, r);
    }
    var c1 := HandleTcpFwd(env, c, seg, r).c;
    CloseShakes(env, c1, Error);
    ShakeStays(env, c1, CloseConn(env, c1, Error));
  }

  lemma FlushShakes(env: Env, c: Conn, r: nat -> SendResult)
    ensures SameShake(c, Flush(env, c, r).c)
  {
    hide Drain, SendToClient, CloseConn;
    var d := Drain(c.queue, r, 0);
    var c1 := c.(queue := d.queue, given := c.given + d.sent);
    if d.error.Some? {
      CloseShakes(env, c1, StatusOf(d.error.value));
    } else {
      var c2 := Counted(c1.(inWrite := c1.inWrite && d.queue != []), |d.sent|);
      SendShakes(env, c2, Reply(c2, Ack, []));
    }
  }

  lemma WritableShakes(env: Env, c: Conn, sends: nat -> SendResult, r: AsyncResult, hello: Option<SockError>)
    requires Shake(env, c) && (c.queue == [] ==> c.status == Connecting)
    ensures Shake(env, Writable(env, c, sends, r, hello).c)
  {
    hide Flush, SocketSyn, CloseConn;
    if c.queue != [] {
      FlushShakes(env, c, sends);
      ShakeStays(env, c, Flush(env, c, sends).c);
    } else {
      SocketSynShakes(env, c, hello);
      CloseShakes(env, c, SocketError);
      ShakeStays(env, c, CloseConn(env, c, SocketError));
      if r.AsyncFailed? {
        CloseShakes(env, c, StatusOf(r.e));
        ShakeStays(env, c, CloseConn(env, c, StatusOf(r.e)));
      }
    }
  }

  lemma EofShakes(env: Env, c: Conn)
    ensures SameShake(c, ServerEof(env, c))
  {
    hide SendToClient, CloseConn;
    SendShakes(env, c, Reply(c, FinAck, []));
    var Outcome(c2, rv) := SendToClient(env, c, Reply(c, FinAck, []));
    var c1 := if c.finAckSent then c
              else c2.(zdtunSeq := if rv == 0 then Wrap32(c2.zdtunSeq + 1) else c2.zdtunSeq, finAckSent := true);
    CloseShakes(env, c1.(open := false, inRead := false, inWrite := false), Closed);
  }

  lemma RelayShakes(env: Env, c: Conn, d: bytes, last: bool)
    ensures SameShake(c, Relay(env, c, d, last).c)
  {
    hide SendToClient, CloseConn;
    CloseShakes(env, c, Error);
    SendShakes(env, c, Reply(c, if last then PushAck else Ack, d));
  }

  /** Server bytes read after the handshake do not touch it. */
  lemma MoreBytes(env: Env, c: Conn, d: bytes)
    requires Shake(env, c) && c.s5 == Established && c.status == Connected
    ensures Shake(env, c.(fromServer := c.fromServer + d))
  {
    hide GreetingRequests, Greets, Grants, ReplyLength;
    var hs := c.fromServer[..c.handshake];
    assert (c.fromServer + d)[..c.handshake] == hs;
    var k: nat :| InReply(env, c, hs, k, 0);
    assert InReply(env, c.(fromServer := c.fromServer + d), hs, k, 0);
  }

  // ------------------------------------------------------------------ handshake bytes

  /** Bytes `d` read in the handshake state `c`; `r` is what is made of them. */
  predicate HandshakeRead(env: Env, c: Conn, d: bytes, c0: Conn) {
    && c.mode == Socks5 && c.status == Connected && c.s5 != Established
    && c0 == c.(fromServer := c.fromServer + d, handshake := c.handshake + |d|)
  }

  lemma ClosedShake(env: Env, c: Conn, c0: Conn, d: bytes, st: Status)
    requires Shake(env, c) && HandshakeRead(env, c, d, c0)
    ensures Shake(env, CloseConn(env, c0, st))
  {
    hide CloseConn, GreetingRequests, Greets, Grants, ReplyLength;
    CloseShakes(env, c0, st);
  }

  lemma GreetingShake(env: Env, c: Conn, d: bytes, c0: Conn, fail: Option<SockError>)
    requires Shake(env, c) && HandshakeRead(env, c, d, c0) && (c.s5 == Hello || c.s5 == Auth)
    ensures Shake(env, Socks5Reply(env, c0, d, fail).c)
  {
    ClosedShake(env, c, c0, d, Socks5Error);
    if fail.Some? {
      ClosedShake(env, c, c0, d, StatusOf(fail.value));
    } else if c.s5 == Hello {
      HelloShake(env, c, d, c0);
    } else {
      AuthShake(env, c, d, c0);
    }
    hide CloseConn, Shake, HelloRequest, AuthRequest, ConnectRequest;
  }

  lemma HelloShake(env: Env, c: Conn, d: bytes, c0: Conn)
    requires Shake(env, c) && HandshakeRead(env, c, d, c0) && c.s5 == Hello && Shake(env, CloseConn(env, c0, Socks5Error))
    ensures Shake(env, Socks5Reply(env, c0, d, None).c)
  {
    HandshakeFields(env, c, d, c0);
    hide *;
    HelloState(env, c);
    HelloAnswered(env, c0, d);
    assert [] + d == d;
    if d == [5, 0] {
      AskedShake(env, c0.(requests := c0.requests + [ConnectRequest(env)], s5 := Requested));
    } else if d == [5, 2] && env.userPass.Some? {
      AuthAskedShake(env, c0.(requests := c0.requests + [AuthRequest(env.userPass.value.0, env.userPass.value.1)], s5 := Auth));
    }
  }

  lemma HandshakeFields(env: Env, c: Conn, d: bytes, c0: Conn)
    requires HandshakeRead(env, c, d, c0)
    ensures c.mode == Socks5 && c.status == Connected
    ensures c0 == c.(fromServer := c.fromServer + d, handshake := c.handshake + |d|)
  {
  }

  lemma HelloState(env: Env, c: Conn)
    requires Shake(env, c) && c.status == Connected && c.s5 == Hello
    ensures c.fromServer == [] && c.handshake == 0 && c.requests == [HelloRequest(env)]
  {
    hide HelloRequest;
    assert c.fromServer[..c.handshake] == c.fromServer;
  }

  lemma AskedShake(env: Env, c: Conn)
    requires c.mode == Socks5 && c.status == Connected && c.s5 == Requested && c.handshake == |c.fromServer|
    requires c.fromServer == [5, 0] && c.requests == [HelloRequest(env)] + [ConnectRequest(env)]
    ensures Shake(env, c)
  {
    GreetsPlain(env);
    hide Greets, GreetingRequests, HelloRequest, ConnectRequest;
    assert c.fromServer[..c.handshake] == c.fromServer;
  }

  lemma AuthAskedShake(env: Env, c: Conn)
    requires c.mode == Socks5 && c.status == Connected && c.s5 == Auth && c.handshake == |c.fromServer| && env.userPass.Some?
    requires c.fromServer == [5, 2]
    requires c.requests == [HelloRequest(env)] + [AuthRequest(env.userPass.value.0, env.userPass.value.1)]
    ensures Shake(env, c)
  {
    hide HelloRequest, AuthRequest;
    assert c.fromServer[..c.handshake] == c.fromServer;
  }

  lemma GreetsPlain(env: Env)
    ensures Greets(env, [5, 0]) && GreetingRequests(env, [5, 0]) == [HelloRequest(env), ConnectRequest(env)]
  {
  }

  lemma HelloAnswered(env: Env, c: Conn, d: bytes)
    requires c.s5 == Hello
    ensures Socks5Reply(env, c, d, None).c ==
            if d == [5, 0] then c.(requests := c.requests + [ConnectRequest(env)], s5 := Requested)
            else if d == [5, 2] && env.userPass.Some? then
              c.(requests := c.requests + [AuthRequest(env.userPass.value.0, env.userPass.value.1)], s5 := Auth)
            else CloseConn(env, c, Socks5Error)
  {
    hide CloseConn, AuthRequest, ConnectRequest;
  }

  lemma AuthShake(env: Env, c: Conn, d: bytes, c0: Conn)
    requires Shake(env, c) && HandshakeRead(env, c, d, c0) && c.s5 == Auth && Shake(env, CloseConn(env, c0, Socks5Error))
    ensures Shake(env, Socks5Reply(env, c0, d, None).c)
  {
    hide CloseConn, HelloRequest, AuthRequest, ConnectRequest, Grants, InReply;
    assert c0.fromServer[..c0.handshake] == [5, 2] + d;
  }

  /** The reply, counted from its first byte, lacks `left` bytes. */
  lemma ReplyShake(env: Env, c1: Conn, k: nat, left: nat)
    requires c1.mode == Socks5 && c1.status == Connected && c1.handshake == |c1.fromServer|
    requires InReply(env, c1, c1.fromServer, k, left)
    requires if left > 0 then c1.s5 == SkipBnd && c1.skip == left else c1.s5 == Established
    ensures Shake(env, c1)
  {
    hide GreetingRequests, Greets, Grants, ReplyLength, InReply;
    assert c1.fromServer[..c1.handshake] == c1.fromServer;
  }

  lemma RefusedReply(env: Env, c: Conn, d: bytes)
    requires !Grants(d)
    ensures var c1 := ConnectReply(env, c, d).c;
            c1 == CloseConn(env, c, Socks5Error) || c1 == CloseConn(env, c, Unreachable) || c1 == CloseConn(env, c, SocketError)
  {
    hide CloseConn, SkipBound;
  }

  lemma GrantedHeader(env: Env, c: Conn, d: bytes)
    requires Grants(d)
    ensures var n := ReplyLength(d);
            var c1 := c.(skip := n - 4, s5 := SkipBnd);
            n >= 10 && ConnectReply(env, c, d).c == if |d| > 4 then SkipBound(env, c1, d[4..]).c else c1
  {
    hide CloseConn, SkipBound;
  }

  lemma GrantedReply(env: Env, c: Conn, d: bytes)
    requires Grants(d)
    ensures var n := ReplyLength(d);
            n >= 10 &&
            ConnectReply(env, c, d).c ==
            if |d| <= n then c.(skip := n - |d|, s5 := if |d| == n then Established else SkipBnd)
            else CloseConn(env, c.(skip := n - 4, s5 := SkipBnd), Socks5Error)
  {
    GrantedHeader(env, c, d);
    var n := ReplyLength(d);
    AtLeastHeader(d);
    hide CloseConn, ConnectReply, ReplyLength, Grants, SkipBound;
    var c1 := c.(skip := n - 4, s5 := SkipBnd);
    if |d| > 4 {
      Skipped(env, c1, d[4..]);
    }
  }

  lemma AtLeastHeader(d: bytes)
    requires Grants(d)
    ensures |d| >= 4
  {
  }

  lemma Skipped(env: Env, c: Conn, d: bytes)
    ensures SkipBound(env, c, d).c ==
            if |d| > c.skip then CloseConn(env, c, Socks5Error)
            else c.(skip := c.skip - |d|, s5 := if |d| == c.skip then Established else SkipBnd)
  {
    hide CloseConn;
  }

  lemma ConnectReplyShake(env: Env, c: Conn, d: bytes, c0: Conn)
    requires Shake(env, c) && HandshakeRead(env, c, d, c0) && c.s5 == Requested
    ensures Shake(env, ConnectReply(env, c0, d).c)
  {
    hide CloseConn, GreetingRequests, Greets, Shake, ConnectReply, Grants, ReplyLength;
    if Grants(d) {
      GrantedReply(env, c0, d);
      var n := ReplyLength(d);
      if |d| <= n {
        GrantedShake(env, c, d, c0, n);
      } else {
        var c1 := c0.(skip := n - 4, s5 := SkipBnd);
        CloseShakes(env, c1, Socks5Error);
        RequestedState(env, c);
        DeadShakes(env, CloseConn(env, c1, Socks5Error));
      }
    } else {
      RefusedReply(env, c0, d);
      ClosedShake(env, c, c0, d, Socks5Error);
      ClosedShake(env, c, c0, d, Unreachable);
      ClosedShake(env, c, c0, d, SocketError);
    }
  }

  lemma GrantedShake(env: Env, c: Conn, d: bytes, c0: Conn, n: nat)
    requires Shake(env, c) && HandshakeRead(env, c, d, c0) && c.s5 == Requested
    requires Grants(d) && n == ReplyLength(d) && |d| <= n && n >= 10
    ensures Shake(env, c0.(skip := n - |d|, s5 := if |d| == n then Established else SkipBnd))
  {
    hide GreetingRequests, Greets, Shake, Grants, ReplyLength;
    RequestedState(env, c);
    var hs := c.fromServer;
    assert (hs + d)[..|hs|] == hs && (hs + d)[|hs|..] == d;
    ReplyShake(env, c0.(skip := n - |d|, s5 := if |d| == n then Established else SkipBnd), |hs|, n - |d|);
  }

  lemma RequestedState(env: Env, c: Conn)
    requires Shake(env, c) && c.mode == Socks5 && c.status == Connected && c.s5 == Requested
    ensures c.handshake == |c.fromServer| && Greets(env, c.fromServer) && c.requests == GreetingRequests(env, c.fromServer)
  {
    assert c.fromServer[..c.handshake] == c.fromServer;
  }

  lemma DeadShakes(env: Env, c: Conn)
    requires Dead(c.status) && c.mode == Socks5 && c.handshake <= |c.fromServer|
    ensures Shake(env, c)
  {
  }

  lemma SkipShake(env: Env, c: Conn, d: bytes, c0: Conn)
    requires Shake(env, c) && HandshakeRead(env, c, d, c0) && c.s5 == SkipBnd
    ensures Shake(env, SkipBound(env, c0, d).c)
  {
    hide CloseConn, GreetingRequests, Greets, Shake, InReply, Grants, ReplyLength;
    ClosedShake(env, c, c0, d, Socks5Error);
    if |d| <= c.skip {
      var k := SkipState(env, c);
      MoreOfReply(env, c, c.fromServer, d, k, c.skip);
      var c1 := c0.(skip := c.skip - |d|, s5 := if c.skip == |d| then Established else SkipBnd);
      SameReply(env, c, c1, c1.fromServer, k, c1.skip);
      ReplyShake(env, c1, k, c1.skip);
    }
  }

  lemma SkipState(env: Env, c: Conn) returns (k: nat)
    requires Shake(env, c) && c.status == Connected && c.s5 == SkipBnd
    ensures InReply(env, c, c.fromServer, k, c.skip) && c.handshake == |c.fromServer|
  {
    hide GreetingRequests, Greets, InReply;
    assert c.fromServer[..c.handshake] == c.fromServer;
    k :| InReply(env, c, c.fromServer, k, c.skip);
  }

  lemma MoreOfReply(env: Env, c: Conn, hs: bytes, d: bytes, k: nat, left: nat)
    requires InReply(env, c, hs, k, left) && |d| <= left
    ensures InReply(env, c, hs + d, k, left - |d|)
  {
    hide GreetingRequests, Greets;
    assert (hs + d)[..k] == hs[..k] && (hs + d)[k..] == hs[k..] + d;
  }

  /** Only the requests sent matter. */
  lemma SameReply(env: Env, c: Conn, c1: Conn, hs: bytes, k: nat, left: nat)
    requires InReply(env, c, hs, k, left) && c1.requests == c.requests
    ensures InReply(env, c1, hs, k, left)
  {
  }

  lemma BytesShake(env: Env, c: Conn, d: bytes, c1: Conn, fail: Option<SockError>)
    requires Shake(env, c) && HandshakeRead(env, c, d, c1)
    ensures Shake(env, Socks5Reply(env, c1, d, fail).c)
  {
    hide CloseConn, Shake, SendRequest, ConnectReply, SkipBound, ConnectRequest, AuthRequest;
    if c.s5 == Requested {
      ConnectReplyShake(env, c, d, c1);
    } else if c.s5 == SkipBnd {
      SkipShake(env, c, d, c1);
    } else {
      GreetingShake(env, c, d, c1, fail);
    }
  }

  lemma HandshakeShakes(env: Env, c: Conn, d: bytes, last: bool, fail: Option<SockError>)
    requires Shake(env, c) && c.mode == Socks5 && c.status == Connected && c.s5 != Established
    ensures Shake(env, Readable(env, c, Data(d, last), fail).c)
  {
    hide Shake, SendSynAck, SameShake, Socks5Reply;
    var c1 := c.(fromServer := c.fromServer + d).(handshake := c.handshake + |d|);
    BytesShake(env, c, d, c1, fail);
    var c2 := Socks5Reply(env, c1, d, fail).c;
    SynAckShakes(env, c2);
    ShakeStays(env, c2, SendSynAck(env, c2).c);
  }

  lemma ReadableShakes(env: Env, c: Conn, r: RecvResult, fail: Option<SockError>)
    requires Shake(env, c) && c.mode == Socks5 && c.status == Connected
    ensures Shake(env, Readable(env, c, r, fail).c)
  {
    hide CloseConn, ServerEof, Relay, Shake, SendSynAck, SameShake, Socks5Reply;
    match r
    case RecvFailed(e) =>
      CloseShakes(env, c, StatusOf(e));
      ShakeStays(env, c, CloseConn(env, c, StatusOf(e)));
    case Eof =>
      EofShakes(env, c);
      ShakeStays(env, c, ServerEof(env, c));
    case Data(d, last) =>
      if c.s5 != Established {
        HandshakeShakes(env, c, d, last, fail);
      } else {
        var c0 := c.(fromServer := c.fromServer + d);
        MoreBytes(env, c, d);
        RelayShakes(env, c0, d, last);
        ShakeStays(env, c0, Relay(env, c0, d, last).c);
      }
  }

  lemma StepShakes(env: Env, c: Conn, e: Event)
    requires Ready(c) && Shake(env, c) && !ReadsEarly(c, e)
    ensures Shake(env, Step(env, c, e))
  {
    assert c.mode == Socks5;
    hide Forward, Readable, Writable, CloseConn, ItemsOk, Unsent, Shake, SameShake;
    match e
    case Client(seg, syn) => ForwardShakes(env, c, seg, syn);
    case CanRead(recv, fail) =>
      if c.open && c.inRead {
        if c.status == Connected {
          ReadableShakes(env, c, recv, fail);
        } else {
          EarlyEnds(env, c, recv, fail);
        }
      }
    case CanWrite(sends, async, hello) => if c.open && c.inWrite { WritableShakes(env, c, sends, async, hello); }
    case Close(st) =>
      CloseShakes(env, c, st);
      ShakeStays(env, c, CloseConn(env, c, st));
  }

  /** While connecting, recv() that returns no byte. */
  lemma EarlyEnds(env: Env, c: Conn, r: RecvResult, fail: Option<SockError>)
    requires Shake(env, c) && !r.Data?
    ensures Shake(env, Readable(env, c, r, fail).c)
  {
    hide CloseConn, ServerEof, Shake, SameShake;
    EofShakes(env, c);
    ShakeStays(env, c, ServerEof(env, c));
    if r.RecvFailed? {
      CloseShakes(env, c, StatusOf(r.e));
      ShakeStays(env, c, CloseConn(env, c, StatusOf(r.e)));
    }
  }

  /** In every run through a SOCKS5 proxy that is not read before it is connected: an established connection has sent
      the greeting, the credentials if asked for them, and the connect request, in this order, and has read a greeting
      and exactly one whole granting reply; the client has its one SYN+ACK then and only then, and every byte it
      received came after the handshake. */
  lemma {:induction false} HandshakeBeforeRelay(env: Env, events: seq<Event>)
    requires PossibleRun(env, NewConn(true, Socks5), events) && !ReadsEarlyIn(env, NewConn(true, Socks5), events)
    ensures var c := Run(env, NewConn(true, Socks5), events);
            && Shake(env, c)
            && (c.status == Connected ==>
                  && (SynN(c.log) == 1 <==> c.s5 == Established) && SynN(c.log) <= 1
                  && (c.s5 == Established ==> HandshakeDone(env, c))
                  && Bytes(c.log) == c.fromServer[c.handshake..])
  {
    hide *;
    var c0 := NewConn(true, Socks5);
    if events == [] {
      NewShakes(env);
    } else {
      var before := events[..|events| - 1];
      RunStep(env, c0, events);
      PossibleBefore(env, c0, events);
      HandshakeBeforeRelay(env, before);
      RunIsReady(env, true, Socks5, before);
      StepShakes(env, Run(env, c0, before), events[|events| - 1]);
    }
    RunIsDown(env, Socks5, events);
    DoneWhenUp(env, Run(env, c0, events));
  }

  lemma NewShakes(env: Env)
    ensures Shake(env, Run(env, NewConn(true, Socks5), []))
  {
  }

  lemma PossibleBefore(env: Env, c: Conn, events: seq<Event>)
    requires PossibleRun(env, c, events) && !ReadsEarlyIn(env, c, events) && events != []
    ensures PossibleRun(env, c, events[..|events| - 1]) && !ReadsEarlyIn(env, c, events[..|events| - 1])
    ensures !ReadsEarly(Run(env, c, events[..|events| - 1]), events[|events| - 1])
  {
    hide Possible, Run, ReadsEarly;
    var before := events[..|events| - 1];
    assert forall i :: 0 <= i < |before| ==> before[..i] == events[..i] && before[i] == events[i];
  }

  lemma DoneWhenUp(env: Env, c: Conn)
    requires Shake(env, c) && Down(c, true)
    ensures c.status == Connected ==>
              && (SynN(c.log) == 1 <==> c.s5 == Established) && SynN(c.log) <= 1
              && (c.s5 == Established ==> HandshakeDone(env, c))
              && c.handshake <= |c.fromServer| && Bytes(c.log) == c.fromServer[c.handshake..]
  {
    hide Numbered, SynN, Bytes, DataAfterSyn, InReply;
  }

  /** A greeting of the proxy that the code answers with a request. */
  predicate Answered(env: Env, d: bytes) {
    |d| == 2 && d[0] == 5 && (d[1] == 0 || (d[1] == 2 && env.userPass.Some?))
  }

  /** Reading keeps the handshake in order exactly when the connection is known to be up, or is closed by it: a greeting
      read before is answered although nothing asked for it, and the proxy is greeted only after. */
  lemma EarlyReadBreaksHandshake(env: Env, c: Conn, d: bytes, last: bool, fail: Option<SockError>)
    requires Ready(c) && Shake(env, c) && c.open && c.inRead && d != []
    ensures var c1 := Step(env, c, CanRead(Data(d, last), fail));
            && (Shake(env, c1) <==> c.status == Connected || Dead(c1.status))
            && (c.status == Connecting ==> (Dead(c1.status) <==> !Answered(env, d) || fail.Some?))
  {
    hide Shake, Readable, ItemsOk, Unsent;
    if c.status == Connected {
      StepShakes(env, c, CanRead(Data(d, last), fail));
    } else {
      EarlyAnswer(env, c, d, last, fail);
    }
  }

  lemma EarlyAnswer(env: Env, c: Conn, d: bytes, last: bool, fail: Option<SockError>)
    requires Shake(env, c) && c.status == Connecting && d != []
    ensures var c1 := Readable(env, c, Data(d, last), fail).c;
            (Shake(env, c1) <==> Dead(c1.status)) && (Dead(c1.status) <==> !Answered(env, d) || fail.Some?)
  {
    var c1 := c.(fromServer := c.fromServer + d, handshake := c.handshake + |d|);
    hide InReply, GreetingRequests, Greets, Socks5Reply, CloseConn, SendSynAck;
    assert c1.s5 == Hello && c1.mode == Socks5 && c1.status == Connecting && 0 < c1.handshake <= |c1.fromServer|;
    HelloAnswer(env, c1, d, fail);
  }

  lemma HelloAnswer(env: Env, c: Conn, d: bytes, fail: Option<SockError>)
    requires c.s5 == Hello && !Dead(c.status)
    ensures var c1 := Socks5Reply(env, c, d, fail).c;
            && c1.mode == c.mode && c1.fromServer == c.fromServer && c1.handshake == c.handshake && c1.s5 != Established
            && (Dead(c1.status) <==> !Answered(env, d) || fail.Some?) && (!Dead(c1.status) ==> c1.status == c.status)
  {
    hide CloseConn, ConnectRequest, AuthRequest;
    CloseShakes(env, c, Socks5Error);
    CloseKeepsMode(env, c, Socks5Error);
    if fail.Some? {
      CloseShakes(env, c, StatusOf(fail.value));
      CloseKeepsMode(env, c, StatusOf(fail.value));
    }
  }

  /** The bytes are the end of a granting reply, or the whole of one. */
  predicate Completes(c: Conn, d: bytes) {
    (c.s5 == SkipBnd && |d| == c.skip) || (c.s5 == Requested && Grants(d) && |d| == ReplyLength(d))
  }

  /** Handshake bytes establish the connection exactly when they complete the reply. */
  lemma ReplyEstablishes(env: Env, c: Conn, d: bytes, fail: Option<SockError>)
    requires c.s5 != Established && !Dead(c.status)
    ensures Socks5Reply(env, c, d, fail).c.s5 == Established <==> Completes(c, d)
  {
    if c.s5 == Requested {
      ConnectEstablishes(env, c, d);
      hide CloseConn, ConnectReply, Grants, ReplyLength;
    } else if c.s5 == SkipBnd {
      CloseKeepsMode(env, c, Socks5Error);
      hide CloseConn;
    } else {
      GreetingEstablishes(env, c, d, fail);
      hide CloseConn, Socks5Reply;
    }
  }

  lemma GreetingEstablishes(env: Env, c: Conn, d: bytes, fail: Option<SockError>)
    requires c.s5 == Hello || c.s5 == Auth
    ensures Socks5Reply(env, c, d, fail).c.s5 != Established
  {
    hide CloseConn, ConnectRequest, AuthRequest;
    CloseKeepsMode(env, c, Socks5Error);
    if fail.Some? {
      CloseKeepsMode(env, c, StatusOf(fail.value));
    }
  }

  lemma ConnectEstablishes(env: Env, c: Conn, d: bytes)
    requires c.s5 == Requested
    ensures ConnectReply(env, c, d).c.s5 == Established <==> Grants(d) && |d| == ReplyLength(d)
  {
    hide CloseConn, ConnectReply, Grants, ReplyLength;
    if Grants(d) {
      GrantedReply(env, c, d);
      CloseKeepsMode(env, c.(skip := ReplyLength(d) - 4, s5 := SkipBnd), Socks5Error);
    } else {
      RefusedReply(env, c, d);
      CloseKeepsMode(env, c, Socks5Error);
      CloseKeepsMode(env, c, Unreachable);
      CloseKeepsMode(env, c, SocketError);
    }
  }

  lemma ReadEstablishes(env: Env, c: Conn, d: bytes, last: bool, fail: Option<SockError>)
    requires c.Socks5InProgress() && !Dead(c.status)
    ensures Readable(env, c, Data(d, last), fail).c.s5 == Established <==> Completes(c, d)
  {
    ReadingHandshake(env, c, d, last, fail);
    var c1 := c.(fromServer := c.fromServer + d, handshake := c.handshake + |d|);
    ReplyEstablishes(env, c1, d, fail);
    SynAckKeepsS5(env, Socks5Reply(env, c1, d, fail).c);
    hide Socks5Reply, Readable, SendSynAck, Grants, ReplyLength;
  }

  lemma SynAckKeepsS5(env: Env, c: Conn)
    ensures SendSynAck(env, c).c.s5 == c.s5
  {
  }

  /** Reading keeps the order and the numbering of what the client receives exactly when the connection is known to be up,
      or the client refuses its next packet, or the bytes belong to a SOCKS5 handshake and do not complete it. Before the
      connection is up, any other byte is sent with no SYN+ACK before it, and a reply read whole has the SYN+ACK sent too
      early. */
  lemma EarlyReadMisnumbers(env: Env, c: Conn, d: bytes, last: bool, fail: Option<SockError>)
    requires Numbered(c) && Proper(c) && c.isTcp && c.open && c.inRead && (c.status == Connecting || c.status == Connected)
    requires RecvWithin(c, Data(d, last))
    ensures Proper(Step(env, c, CanRead(Data(d, last), fail))) <==>
              c.status == Connected || !env.accepts(c.sends) || (c.Socks5InProgress() && !Completes(c, d))
  {
    EarlyReadCases(env, c, d, last, fail);
    if c.Socks5InProgress() {
      ReadEstablishes(env, c, d, last, fail);
    }
    hide Numbered, Proper, Readable, Completes, RecvWithin;
  }

  // ------------------------------------------------------------------ credentials

  /** How a server reads a username/password request (section 2 of RFC 1929): version, then two counted strings. */
  function ReadAuth(r: bytes): Option<(bytes, bytes)> {
    if |r| < 2 || r[0] != 1 then None
    else
      var u: int := r[1];
      if |r| < 3 + u || |r| != 3 + u + r[2 + u] as int then None else Some((r[2..2 + u], r[3 + u..]))
  }

  /** The server reads the credentials that were configured exactly when each fits its one-byte count. */
  lemma CredentialsArrive(user: bytes, pass: bytes)
    ensures ReadAuth(AuthRequest(user, pass)) == Some((user, pass)) <==> |user| <= 255 && |pass| <= 255
  {
    var r := AuthRequest(user, pass);
    assert |r| == 3 + |user| + |pass|;
    if |user| <= 255 {
      assert r[2..2 + |user|] == user;
      assert r[2 + |user|] == |pass| % 256;
      assert r[3 + |user|..] == pass;
    }
  }

  /** How a server reads a connect request (section 4 of RFC 1928): the address type gives the length. */
  function ReadConnect(r: bytes): Option<(bytes, bytes)> {
    if |r| < 4 || r[0] != 5 || r[1] != 1 || r[2] != 0 then None
    else if r[3] == 1 && |r| == 10 then Some((r[4..8], r[8..10]))
    else if r[3] == 4 && |r| == 22 then Some((r[4..20], r[20..22]))
    else None
  }

  /** The server reads the address and port of the connection, whose IP version gives the length of the address. */
  lemma DestinationArrives(env: Env)
    requires |env.dstPort| == 2
    ensures ReadConnect(ConnectRequest(env)) == Some((env.dstIp, env.dstPort)) <==> |env.dstIp| == if env.ipver == 4 then 4 else 16
  {
    var r := ConnectRequest(env);
    var n := |env.dstIp|;
    assert |r| == 4 + n + 2 && r[4..4 + n] == env.dstIp && r[4 + n..6 + n] == env.dstPort;
  }
}
