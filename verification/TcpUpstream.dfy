/** Upstream: which client bytes reach the server and which are acknowledged, over every run. */
module TcpUpstream {
  import opened Words
  import opened TcpProxy
  import opened TcpReadiness

  /** The client bytes given to send(), and those still queued. */
  function Taken(c: Conn): bytes {
    c.given + Unsent(c.queue)
  }

  /** Packets built while the server socket was open acknowledge the client bytes given to it, none more and none less. */
  predicate AcksExact(log: seq<Packet>, isn: u32, given: nat) {
    forall i :: 0 <= i < |log| && log[i].whileOpen ==> log[i].given <= given && log[i].ackNo == Wrap32(isn + 1 + log[i].given)
  }

  /** The bytes taken are a prefix of the client's stream `s`, and client_seq counts the bytes given. */
  predicate Up(c: Conn, s: bytes) {
    && c.given <= s
    && (c.status == New ==> c.given == [] && c.queue == [] && c.log == [])
    && (c.open ==> Taken(c) <= s && c.clientSeq == Wrap32(c.isn + 1 + |c.given|))
    && AcksExact(c.log, c.isn, |c.given|)
  }

  /** The segment carries the bytes of stream `s` from offset `k` on, and `k` is within 2^31 of the next one expected. */
  predicate CarriedAt(c: Conn, s: bytes, seg: Segment, k: nat) {
    && seg.seqNo == Wrap32(c.isn + 1 + k)
    && -0x8000_0000 < k - |Taken(c)| < 0x8000_0000
    && k + |seg.payload| <= |s| && s[k..k + |seg.payload|] == seg.payload
  }

  /** What is asked of the client: data comes from its stream, a keep-alive probe carries none, and no FIN came yet. */
  ghost predicate FromStream(c: Conn, s: bytes, e: Event) {
    e.Client? && c.status == Connected ==>
      && !e.seg.fin
      && (e.seg.payload != [] && c.open ==> !IsKeepAlive(c, e.seg) && exists k: nat :: CarriedAt(c, s, e.seg, k))
  }

  // ------------------------------------------------------------------ numbers

  /** client_seq + tx_queue_size is the number after the last byte taken. */
  lemma ExpectedIsEnd(c: Conn, s: bytes)
    requires Ready(c) && Up(c, s) && c.open
    ensures ExpectedSeq(c) == Wrap32(c.isn + 1 + |Taken(c)|)
  {
    hide ItemsOk, Unsent, AcksExact;
    WrapAdds(c.isn + 1 + |c.given|, c.qsize);
    WrapAdds(|Unsent(c.queue)|, c.isn + 1 + |c.given|);
  }

  lemma NearIsEqual(base: int, k: int, n: int)
    requires Wrap32(base + k) == Wrap32(base + n) && -0x1_0000_0000 < k - n < 0x1_0000_0000
    ensures k == n
  {
    WrapAdds(base + k, -(base + n));
    WrapAdds(base + n, -(base + n));
    assert Wrap32(k - n) == 0;
  }

  /** Only the segment that starts where the bytes taken end is in sequence. */
  lemma InSequenceIsNext(c: Conn, s: bytes, seg: Segment, k: nat)
    requires Ready(c) && Up(c, s) && c.open && CarriedAt(c, s, seg, k)
    ensures !IsKeepAlive(c, seg) ==> (InSequence(c, seg) <==> k == |Taken(c)|)
  {
    hide ItemsOk, Unsent, AcksExact, Up, Taken;
    ExpectedIsEnd(c, s);
    if seg.seqNo == ExpectedSeq(c) {
      NearIsEqual(c.isn + 1, k, |Taken(c)|);
    }
  }

  // ------------------------------------------------------------------ every step

  lemma AcksAppend(log: seq<Packet>, isn: u32, given: nat, p: Packet)
    requires AcksExact(log, isn, given)
    requires p.whileOpen ==> p.given <= given && p.ackNo == Wrap32(isn + 1 + p.given)
    ensures AcksExact(log + [p], isn, given)
  {
  }

  lemma AcksGrow(log: seq<Packet>, isn: u32, given: nat, more: nat)
    requires AcksExact(log, isn, given) && given <= more
    ensures AcksExact(log, isn, more)
  {
  }

  /** Any packet may be sent: it acknowledges what client_seq says. */
  lemma SendUp(env: Env, c: Conn, kind: Kind, payload: bytes, s: bytes)
    requires Up(c, s) && c.status != New
    ensures Up(SendToClient(env, c, Reply(c, kind, payload)).c, s)
    ensures SendToClient(env, c, Reply(c, kind, payload)).c.status != New
  {
    hide Unsent, AcksExact;
    var p := Reply(c, kind, payload);
    AcksAppend(c.log, c.isn, |c.given|, p);
    if env.accepts(c.sends) {
      assert SendToClient(env, c, p).c == Accepted(c, p);
    }
  }

  lemma CloseUp(env: Env, c: Conn, st: Status, s: bytes)
    requires Up(c, s)
    ensures Up(CloseConn(env, c, st), s) && CloseConn(env, c, st).status != New
  {
    hide Unsent, AcksExact;
    AcksAppend(c.log, c.isn, |c.given|, Reply(c.(open := false), RstAck, []));
  }

  lemma RequestUp(env: Env, c: Conn, request: bytes, next: Socks5Status, fail: Option<SockError>, s: bytes)
    requires Up(c, s) && c.status != New
    ensures Up(SendRequest(env, c, request, next, fail).c, s) && SendRequest(env, c, request, next, fail).c.status != New
  {
    hide Unsent, AcksExact, CloseConn;
    if fail.Some? {
      CloseUp(env, c, StatusOf(fail.value), s);
    }
  }

  lemma SocketSynUp(env: Env, c: Conn, fail: Option<SockError>, s: bytes)
    requires Up(c, s)
    ensures Up(SocketSyn(env, c, fail).c, s) && SocketSyn(env, c, fail).c.status != New
  {
    hide Unsent, AcksExact, SendRequest, SendToClient;
    var c1 := c.(inWrite := false, status := Connected);
    RequestUp(env, c1, HelloRequest(env), Hello, fail, s);
    SendUp(env, c1, SynAck, [], s);
  }

  lemma OpenUp(env: Env, c: Conn, seg: Segment, r: SynResult, s: bytes)
    requires Up(c, s) && c.status == New && !c.open
    ensures Up(OpenForSyn(env, c, seg, r).c, s)
  {
    hide SocketSyn, CloseConn, Shl;
    if r.socketOk {
      var o := TcpProxy.TcpOptions.Parse(seg.options, TcpProxy.TcpOptions.Parsed(env.defaultMss, 0));
      var c1 := c.(inRead := true, window := Shl(seg.win, o.scale), scale := o.scale, mss := o.mss);
      var c2 := c1.(open := true, clientSeq := Wrap32(seg.seqNo + 1), zdtunSeq := ISS, isn := seg.seqNo);
      SocketSynUp(env, c2, r.hello, s);
      if r.connect.Failed? {
        CloseOfNewUp(env, c1.(open := true), StatusOf(r.connect.e), s);
      }
    }
  }

  /** Nothing is known of client_seq when connect() fails at once, and the RST is built after the socket is gone. */
  lemma CloseOfNewUp(env: Env, c: Conn, st: Status, s: bytes)
    requires c.given == [] && c.log == [] && c.status == New
    ensures Up(CloseConn(env, c, st), s)
  {
  }

  lemma EnqueueUp(c: Conn, seg: Segment, s: bytes, k: nat)
    requires Up(c, s) && c.open && c.status != New && CarriedAt(c, s, seg, k) && k == |Taken(c)|
    ensures Up(Enqueue(c, seg.payload, seg.psh), s) && Taken(Enqueue(c, seg.payload, seg.psh)) == Taken(c) + seg.payload
  {
    hide AcksExact, Unsent;
    var x := Item(seg.payload, 0, seg.psh);
    UnsentAppend(c.queue, x);
    assert x.Rest() == seg.payload;
    ConcatAssoc(c.given, Unsent(c.queue), seg.payload);
    PrefixGrows(Taken(c), seg.payload, s);
  }

  lemma PrefixGrows(t: bytes, d: bytes, s: bytes)
    requires t <= s && |t| + |d| <= |s| && s[|t|..|t| + |d|] == d
    ensures t + d <= s
  {
    assert s == t + s[|t|..];
    assert s[|t|..] == d + s[|t| + |d|..];
  }

  lemma SendKeepsAll(env: Env, c: Conn, p: Packet)
    ensures var Outcome(c1, rv) := SendToClient(env, c, p); rv == 0 ==> c1 == Accepted(c, p)
  {
  }

  lemma TakeAckUp(env: Env, c: Conn, seg: Segment, s: bytes)
    requires Up(c, s) && c.status == Connected
    ensures var Outcome(c1, rv) := TakeAck(env, c, seg);
            && Up(c1, s)
            && (rv == 0 ==> c1.status == Connected && c1.open == c.open && c1.queue == c.queue && c1.given == c.given
                            && c1.isn == c.isn && c1.clientSeq == c.clientSeq && c1.qsize == c.qsize)
  {
    hide Unsent, AcksExact, IsKeepAlive, WindowAfterAck, SendToClient;
    SendUp(env, c, Ack, [], s);
    SendKeepsAll(env, c, Reply(c, Ack, []));
  }

  lemma TakeSegmentUp(env: Env, c: Conn, seg: Segment, s: bytes)
    requires Ready(c) && Up(c, s) && c.status == Connected && !seg.fin
    requires seg.payload != [] && c.open ==> !IsKeepAlive(c, seg) && exists k: nat :: CarriedAt(c, s, seg, k)
    ensures Up(TakeSegment(env, c, seg).c, s)
  {
    hide AcksExact, Unsent, ItemsOk, CloseConn, TakeAck, SendToClient, Up, Ready, IsKeepAlive;
    CloseUp(env, c, Socks5Error, s);
    CloseUp(env, c, Closed, s);
    TakeAckUp(env, c, seg, s);
    var c1 := TakeAck(env, c, seg).c;
    if InSequence(c, seg) && TakeAck(env, c, seg).rv == 0 && seg.payload != [] {
      if c.open {
        var k: nat :| CarriedAt(c, s, seg, k);
        InSequenceIsNext(c, s, seg, k);
        EnqueueUp(c1, seg, s, k);
      } else {
        ClosedSocketUp(env, c1, seg, s);
      }
    }
  }

  lemma ClosedSocketUp(env: Env, c: Conn, seg: Segment, s: bytes)
    requires Up(c, s) && c.status == Connected && !c.open
    ensures Up(TakePayload(env, c, seg).c, s)
  {
    hide AcksExact, Unsent, SendToClient;
    SendUp(env, c.(clientSeq := Wrap32(c.clientSeq + |seg.payload|)), Ack, [], s);
  }

  lemma ForwardUp(env: Env, c: Conn, seg: Segment, r: SynResult, s: bytes)
    requires Ready(c) && Up(c, s) && FromStream(c, s, Client(seg, r))
    ensures Up(Forward(env, c, seg, r), s)
  {
    hide AcksExact, Unsent, ItemsOk, CloseConn, OpenForSyn, TakeSegment, Up, CarriedAt, IsKeepAlive;
    if !Dead(c.status) {
      CloseUp(env, c, Error, s);
      if c.status == New {
        OpenUp(env, c, seg, r, s);
      } else if c.status == Connected {
        TakeSegmentUp(env, c, seg, s);
      }
      CloseUp(env, HandleTcpFwd(env, c, seg, r).c, Error, s);
    }
  }

  lemma SendKeepsData(env: Env, c: Conn, p: Packet)
    ensures var c1 := SendToClient(env, c, p).c;
            && c1.given == c.given
            && (c1.open ==> c1.queue == c.queue && c1.clientSeq == c.clientSeq && c1.qsize == c.qsize)
  {
    if env.accepts(c.sends) || Dead(c.status) {
      assert SendToClient(env, c, p).c.queue == c.queue;
    }
  }

  lemma EndStays(clientSeq: u32, qsize: u32, n: nat)
    ensures Wrap32(Wrap32(clientSeq + n) + Wrap32(qsize - n)) == Wrap32(clientSeq + qsize)
  {
    WrapAdds(clientSeq + n, Wrap32(qsize - n));
    WrapAdds(qsize - n, clientSeq + n);
  }

  lemma FlushMoves(env: Env, c: Conn, r: nat -> SendResult)
    requires Drain(c.queue, r, 0).error.None?
    ensures var c1, d := Flush(env, c, r).c, Drain(c.queue, r, 0);
            && c1.given == c.given + d.sent
            && (c1.open ==> c1.queue == d.queue && c1.clientSeq == Wrap32(c.clientSeq + |d.sent|)
                            && c1.qsize == Wrap32(c.qsize - |d.sent|))
  {
    hide Drain, SendToClient;
    var d := Drain(c.queue, r, 0);
    var c1 := c.(queue := d.queue, given := c.given + d.sent);
    var c2 := Counted(c1.(inWrite := c1.inWrite && d.queue != []), |d.sent|);
    SendKeepsData(env, c2, Reply(c2, Ack, []));
  }

  /** Writing takes bytes from the front of the queue and counts them in client_seq: what was taken, and the number
      after it, stay the same. */
  lemma FlushKeepsEnd(env: Env, c: Conn, r: nat -> SendResult)
    requires Ready(c) && c.open && Drain(c.queue, r, 0).error.None?
    ensures var c1 := Flush(env, c, r).c;
            && c1.given == c.given + Drain(c.queue, r, 0).sent
            && (c1.open ==> Taken(c1) == Taken(c) && ExpectedSeq(c1) == ExpectedSeq(c))
  {
    hide *;
    DrainOfReady(c, r);
    FlushMoves(env, c, r);
    var c1 := Flush(env, c, r).c;
    if c1.open {
      SameEnd(c, c1, Drain(c.queue, r, 0));
    }
  }

  lemma DrainOfReady(c: Conn, r: nat -> SendResult)
    requires Ready(c) && c.open
    ensures Unsent(c.queue) == Drain(c.queue, r, 0).sent + Unsent(Drain(c.queue, r, 0).queue)
  {
    hide ItemsOk, Unsent, Drain;
    DrainTakesPrefix(c.queue, r, 0);
  }

  lemma SameEnd(c: Conn, c1: Conn, d: Drained)
    requires Unsent(c.queue) == d.sent + Unsent(d.queue)
    requires c1.given == c.given + d.sent && c1.queue == d.queue
    requires c1.clientSeq == Wrap32(c.clientSeq + |d.sent|) && c1.qsize == Wrap32(c.qsize - |d.sent|)
    ensures Taken(c1) == Taken(c) && ExpectedSeq(c1) == ExpectedSeq(c)
  {
    SameNumber(c, c1, |d.sent|);
    hide Unsent, Wrap32, ExpectedSeq;
    ConcatAssoc(c.given, d.sent, Unsent(d.queue));
  }

  lemma SameNumber(c: Conn, c1: Conn, n: nat)
    requires c1.clientSeq == Wrap32(c.clientSeq + n) && c1.qsize == Wrap32(c.qsize - n)
    ensures ExpectedSeq(c1) == ExpectedSeq(c)
  {
    EndStays(c.clientSeq, c.qsize, n);
    hide Wrap32;
  }

  lemma FlushUp(env: Env, c: Conn, r: nat -> SendResult, s: bytes)
    requires Ready(c) && Up(c, s) && c.open
    ensures Up(Flush(env, c, r).c, s)
  {
    DrainOfReady(c, r);
    OpenIsUp(c, s);
    hide Drain, AcksExact, Unsent, CloseConn, AfterSend, Ready, Up, Taken;
    var d := Drain(c.queue, r, 0);
    var c1 := c.(queue := d.queue, given := c.given + d.sent);
    TakenStays(c, c1, d);
    if d.error.Some? {
      AcksGrow(c.log, c.isn, |c.given|, |c1.given|);
      GivenUp(env, c1, StatusOf(d.error.value), s);
    } else {
      SentUp(env, c, c1, d.sent, s);
    }
  }

  lemma OpenIsUp(c: Conn, s: bytes)
    requires Ready(c) && Up(c, s) && c.open
    ensures c.status != New && !Dead(c.status) && Taken(c) <= s && AcksExact(c.log, c.isn, |c.given|)
  {
    hide ItemsOk, Unsent, AcksExact, Taken;
  }

  lemma TakenStays(c: Conn, c1: Conn, d: Drained)
    requires Unsent(c.queue) == d.sent + Unsent(d.queue) && c1.given == c.given + d.sent && c1.queue == d.queue
    ensures Taken(c1) == Taken(c) && c1.given <= Taken(c)
  {
    hide Unsent;
    ConcatAssoc(c.given, d.sent, Unsent(d.queue));
  }

  /** The bytes just sent are counted, and acknowledged. */
  lemma SentUp(env: Env, c: Conn, c1: Conn, sent: bytes, s: bytes)
    requires Up(c, s) && c.open && c.status != New && Taken(c1) <= s
    requires c1 == c.(queue := c1.queue, given := c.given + sent)
    ensures Up(AfterSend(env, c1, |sent|).c, s)
  {
    hide AcksExact, Unsent, SendToClient;
    AcksGrow(c.log, c.isn, |c.given|, |c1.given|);
    WrapAdds(c.isn + 1 + |c.given|, |sent|);
    var c2 := c1.(inWrite := c1.inWrite && c1.queue != []);
    if sent != [] {
      SendUp(env, Counted(c2, |sent|), Ack, [], s);
    }
  }

  /** A failed send() closes the connection before client_seq counts what it accepted before. */
  lemma GivenUp(env: Env, c: Conn, st: Status, s: bytes)
    requires c.given <= s && c.status != New && AcksExact(c.log, c.isn, |c.given|) && (Dead(c.status) ==> !c.open)
    ensures Up(CloseConn(env, c, st), s)
  {
    hide Unsent, AcksExact;
    AcksAppend(c.log, c.isn, |c.given|, Reply(c.(open := false), RstAck, []));
  }

  lemma WritableUp(env: Env, c: Conn, sends: nat -> SendResult, r: AsyncResult, hello: Option<SockError>, s: bytes)
    requires Ready(c) && Up(c, s) && c.open
    ensures Up(Writable(env, c, sends, r, hello).c, s)
  {
    hide Flush, SocketSyn, CloseConn, ItemsOk, Unsent, Up;
    FlushUp(env, c, sends, s);
    SocketSynUp(env, c, hello, s);
    CloseUp(env, c, SocketError, s);
    if r.AsyncFailed? {
      CloseUp(env, c, StatusOf(r.e), s);
    }
  }

  lemma SkipBoundUp(env: Env, c: Conn, d: bytes, s: bytes)
    requires Up(c, s) && c.status != New
    ensures Up(SkipBound(env, c, d).c, s) && SkipBound(env, c, d).c.status != New
  {
    hide CloseConn, AcksExact, Unsent;
    CloseUp(env, c, Socks5Error, s);
  }

  lemma ConnectReplyUp(env: Env, c: Conn, d: bytes, s: bytes)
    requires Up(c, s) && c.status != New
    ensures Up(ConnectReply(env, c, d).c, s) && ConnectReply(env, c, d).c.status != New
  {
    hide CloseConn, SkipBound, AcksExact, Unsent;
    CloseUp(env, c, Socks5Error, s);
    CloseUp(env, c, Unreachable, s);
    CloseUp(env, c, SocketError, s);
    if |d| >= 4 {
      SkipBoundUp(env, c.(skip := if d[3] == 1 then 6 else 18, s5 := SkipBnd), d[4..], s);
    }
  }

  lemma Socks5Up(env: Env, c: Conn, d: bytes, fail: Option<SockError>, s: bytes)
    requires Up(c, s) && c.status != New
    ensures Up(Socks5Reply(env, c, d, fail).c, s) && Socks5Reply(env, c, d, fail).c.status != New
  {
    hide CloseConn, SendRequest, ConnectReply, SkipBound, ConnectRequest, AuthRequest, Up;
    CloseUp(env, c, Socks5Error, s);
    SkipBoundUp(env, c, d, s);
    ConnectReplyUp(env, c, d, s);
    RequestUp(env, c, ConnectRequest(env), Requested, fail, s);
    if env.userPass.Some? {
      RequestUp(env, c, AuthRequest(env.userPass.value.0, env.userPass.value.1), Auth, fail, s);
    }
  }

  lemma EofUp(env: Env, c: Conn, s: bytes)
    requires Up(c, s) && c.status != New
    ensures Up(ServerEof(env, c), s)
  {
    hide CloseConn, SendToClient, AcksExact, Unsent;
    SendUp(env, c, FinAck, [], s);
    var Outcome(c2, rv) := SendToClient(env, c, Reply(c, FinAck, []));
    var c1 := if c.finAckSent then c
              else c2.(zdtunSeq := if rv == 0 then Wrap32(c2.zdtunSeq + 1) else c2.zdtunSeq, finAckSent := true);
    CloseUp(env, c1.(open := false, inRead := false, inWrite := false), Closed, s);
  }

  lemma RelayUp(env: Env, c: Conn, d: bytes, last: bool, s: bytes)
    requires Up(c, s) && c.status != New
    ensures Up(Relay(env, c, d, last).c, s)
  {
    hide CloseConn, SendToClient, AcksExact, Unsent;
    CloseUp(env, c, Error, s);
    SendUp(env, c, if last then PushAck else Ack, d, s);
  }

  lemma SynAckUp(env: Env, c: Conn, s: bytes)
    requires Up(c, s) && c.status != New
    ensures Up(SendSynAck(env, c).c, s)
  {
    hide SendToClient, AcksExact, Unsent;
    SendUp(env, c, SynAck, [], s);
  }

  lemma ReadableUp(env: Env, c: Conn, r: RecvResult, fail: Option<SockError>, s: bytes)
    requires Up(c, s) && c.status != New
    ensures Up(Readable(env, c, r, fail).c, s)
  {
    hide CloseConn, Socks5Reply, SendSynAck, ServerEof, Relay, Unsent, AcksExact;
    match r
    case RecvFailed(e) => CloseUp(env, c, StatusOf(e), s);
    case Eof => EofUp(env, c, s);
    case Data(d, last) =>
      var c0 := c.(fromServer := c.fromServer + d);
      RelayUp(env, c0, d, last, s);
      var c1 := c0.(handshake := c.handshake + |d|);
      Socks5Up(env, c1, d, fail, s);
      SynAckUp(env, Socks5Reply(env, c1, d, fail).c, s);
  }

  lemma StepUp(env: Env, c: Conn, e: Event, s: bytes)
    requires Ready(c) && Up(c, s) && FromStream(c, s, e)
    ensures Up(Step(env, c, e), s)
  {
    hide Forward, Readable, Writable, CloseConn, ItemsOk, Unsent, Up, FromStream;
    match e
    case Client(seg, syn) => ForwardUp(env, c, seg, syn, s);
    case CanRead(recv, fail) => if c.open { ReadableUp(env, c, recv, fail, s); }
    case CanWrite(sends, async, hello) => if c.open { WritableUp(env, c, sends, async, hello, s); }
    case Close(st) => CloseUp(env, c, st, s);
  }

  // ------------------------------------------------------------------ runs

  ghost predicate FromStreamIn(env: Env, c: Conn, s: bytes, events: seq<Event>) {
    forall i :: 0 <= i < |events| ==> FromStream(Run(env, c, events[..i]), s, events[i])
  }

  /** In every run on segments of one client stream, reordered and duplicated at will, the bytes given to send() and
      those queued are a prefix of the stream, client_seq + tx_queue_size is the number after it, and every packet sent
      while the server socket is open acknowledges exactly the bytes given to it. */
  lemma {:induction false} RunIsUp(env: Env, isTcp: bool, mode: ProxyMode, events: seq<Event>, s: bytes)
    requires FromStreamIn(env, NewConn(isTcp, mode), s, events)
    ensures var c := Run(env, NewConn(isTcp, mode), events);
            Up(c, s) && (c.open ==> ExpectedSeq(c) == Wrap32(c.isn + 1 + |Taken(c)|))
  {
    hide *;
    var c0 := NewConn(isTcp, mode);
    if events == [] {
      NewIsUp(env, isTcp, mode, s);
    } else {
      var before := events[..|events| - 1];
      RunStep(env, c0, events);
      FromStreamBefore(env, c0, s, events);
      RunIsUp(env, isTcp, mode, before, s);
      RunIsReady(env, isTcp, mode, before);
      StepUp(env, Run(env, c0, before), events[|events| - 1], s);
      RunIsReady(env, isTcp, mode, events);
      EndOfRun(Run(env, c0, events), s);
    }
  }

  lemma NewIsUp(env: Env, isTcp: bool, mode: ProxyMode, s: bytes)
    ensures Up(Run(env, NewConn(isTcp, mode), []), s) && !Run(env, NewConn(isTcp, mode), []).open
  {
  }

  lemma FromStreamBefore(env: Env, c: Conn, s: bytes, events: seq<Event>)
    requires FromStreamIn(env, c, s, events) && events != []
    ensures FromStreamIn(env, c, s, events[..|events| - 1])
    ensures FromStream(Run(env, c, events[..|events| - 1]), s, events[|events| - 1])
  {
    hide FromStream, Run;
    var before := events[..|events| - 1];
    assert forall i :: 0 <= i < |before| ==> before[..i] == events[..i] && before[i] == events[i];
  }

  lemma EndOfRun(c: Conn, s: bytes)
    requires Ready(c) && Up(c, s)
    ensures c.open ==> ExpectedSeq(c) == Wrap32(c.isn + 1 + |Taken(c)|)
  {
    hide Ready, Up, ExpectedSeq, Taken;
    if c.open {
      ExpectedIsEnd(c, s);
    }
  }

  // ------------------------------------------------------------------ keep-alives

  /** A data segment of a connection that is up: no flag gets in its way. */
  predicate PlainData(c: Conn, seg: Segment) {
    && c.status == Connected && c.open && !c.Socks5InProgress()
    && !seg.urg && !seg.rst && !seg.fin && seg.payload != []
  }

  lemma PlainDataQueued(env: Env, c: Conn, seg: Segment, r: SynResult)
    requires Ready(c) && PlainData(c, seg) && env.accepts(c.sends)
    ensures var c1 := Forward(env, c, seg, r);
            && c1.open && c1.given == c.given
            && Taken(c1) == if InSequence(c, seg) then Taken(c) + seg.payload else Taken(c)
  {
    hide ItemsOk, Unsent, InSequence, IsKeepAlive, WindowAfterAck, CloseConn;
    var x := Item(seg.payload, 0, seg.psh);
    UnsentAppend(c.queue, x);
    assert x.Rest() == seg.payload;
    ConcatAssoc(c.given, Unsent(c.queue), seg.payload);
    var p := Reply(c, Ack, []);
    assert SendToClient(env, c, p) == Outcome(Accepted(c, p), 0);
  }

  /** The segment that looks like a keep-alive probe is the one that starts at the last byte given. */
  lemma KeepAliveAt(c: Conn, s: bytes, seg: Segment, k: nat)
    requires Up(c, s) && c.open && CarriedAt(c, s, seg, k) && |Unsent(c.queue)| < 0x7FFF_FFFF && IsKeepAlive(c, seg)
    ensures k + 1 == |c.given|
  {
    hide Unsent, AcksExact;
    WrapAdds(c.isn + 1 + k, 1);
    NearIsEqual(c.isn + 1, k + 1, |c.given|);
  }

  lemma UpOfShorter(c: Conn, s: bytes, n: nat)
    requires Up(c, s) && |Taken(c)| <= n <= |s| && c.open
    ensures Up(c, s[..n])
  {
    hide Unsent, AcksExact;
  }

  /** A data segment keeps what was taken a prefix of the client's stream, whatever that stream is, exactly when it
      does not look like a keep-alive probe: a retransmission from the last byte given on is queued a second time. */
  lemma KeepAliveDataIff(env: Env, c: Conn, seg: Segment, r: SynResult, s: bytes, k: nat)
    requires Ready(c) && Up(c, s) && PlainData(c, seg) && env.accepts(c.sends)
    requires CarriedAt(c, s, seg, k) && |Unsent(c.queue)| < 0x7FFF_FFFF
    ensures (forall t: bytes :: Up(c, t) && CarriedAt(c, t, seg, k) ==> Up(Forward(env, c, seg, r), t)) <==> !IsKeepAlive(c, seg)
  {
    PlainDataQueued(env, c, seg, r);
    hide Ready, Unsent, AcksExact, Forward, IsKeepAlive;
    if IsKeepAlive(c, seg) {
      KeepAliveAt(c, s, seg, k);
      var n := Max(|Taken(c)|, k + |seg.payload|);
      UpOfShorter(c, s, n);
      assert CarriedAt(c, s[..n], seg, k);
      assert !Up(Forward(env, c, seg, r), s[..n]);
    } else {
      forall t: bytes | Up(c, t) && CarriedAt(c, t, seg, k)
        ensures Up(Forward(env, c, seg, r), t)
      {
        assert FromStream(c, t, Client(seg, r));
        ForwardUp(env, c, seg, r, t);
      }
    }
  }

  /** Data in sequence is acknowledged as given exactly when the server socket is open; after the server closed it is
      acknowledged and dropped, whatever is still queued. */
  lemma AcknowledgedIsGiven(env: Env, c: Conn, seg: Segment, r: SynResult)
    requires c.status == Connected && !c.Socks5InProgress() && c.clientSeq == Wrap32(c.isn + 1 + |c.given|)
    requires InSequence(c, seg) && 0 < |seg.payload| < 0x1_0000 && !seg.urg && !seg.rst && !seg.fin && env.accepts(c.sends)
    ensures var c1 := Forward(env, c, seg, r);
            && c1.given == c.given
            && (c1.clientSeq == Wrap32(c.isn + 1 + |c.given|) <==> c.open)
            && (!c.open ==>
                  && c1.queue == c.queue
                  && c1.log == c.log + [Packet(Ack, c.zdtunSeq, Wrap32(c.isn + 1 + |c.given| + |seg.payload|), [], false, |c.given|, true)])
  {
    hide CloseConn, WindowAfterAck, Rewindow, InSequence, IsKeepAlive;
    if c.open {
      AckAccepted(env, c);
      QueuedOnly(env, c, seg);
    } else {
      WrapAdds(c.isn + 1 + |c.given|, |seg.payload|);
      AckAccepted(env, c.(clientSeq := Wrap32(c.clientSeq + |seg.payload|)));
      OtherNumber(c.clientSeq, |seg.payload|);
    }
  }

  lemma AckAccepted(env: Env, c: Conn)
    requires env.accepts(c.sends)
    ensures SendAck(env, c) == Outcome(Accepted(c, Reply(c, Ack, [])), 0)
  {
    assert SendToClient(env, c, Reply(c, Ack, [])) == Outcome(Accepted(c, Reply(c, Ack, [])), 0);
  }

  lemma QueuedOnly(env: Env, c: Conn, seg: Segment)
    requires c.open && SendAck(env, c) == Outcome(Accepted(c, Reply(c, Ack, [])), 0)
    ensures var Outcome(c1, rv) := TakeAck(env, c, seg);
            rv == 0 && c1.open && c1.given == c.given && c1.clientSeq == c.clientSeq
  {
    hide WindowAfterAck, IsKeepAlive, SendAck;
  }

  lemma OtherNumber(x: u32, n: nat)
    requires 0 < n < 0x1_0000
    ensures Wrap32(x + n) != x
  {
  }
}
