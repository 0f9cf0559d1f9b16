/** Flow control: the client's window, and whether the server socket is asked for data, over every run. */
module TcpFlow {
  import opened Words
  import opened TcpProxy
  import opened TcpReadiness
  import opened TcpDownstream
  import TcpOptions

  /** An open socket is asked for data exactly while the client has room for it. */
  predicate Flow(c: Conn) {
    c.open ==> (c.inRead <==> c.window > 0) && c.mss > 0
  }

  /** How many server bytes were sent to the client. */
  function SentBytes(c: Conn): nat {
    |Bytes(c.log)|
  }

  /** The length of the longest payload received. */
  function Longest(log: seq<Packet>): nat {
    if log == [] then 0 else Max(Longest(log[..|log| - 1]), |log[|log| - 1].payload|)
  }

  lemma LongestNext(log: seq<Packet>, p: Packet)
    ensures Longest(log + [p]) == Max(Longest(log), |p.payload|)
  {
    assert (log + [p])[..|log|] == log;
  }

  lemma {:induction false} LongestOf(log: seq<Packet>, i: nat)
    requires i < |log|
    ensures |log[i].payload| <= Longest(log)
  {
    if i < |log| - 1 {
      LongestOf(log[..|log| - 1], i);
    }
  }

  /** The first byte the client has no room for, counted from the first server byte. */
  function RightEdge(c: Conn): nat {
    SentBytes(c) + c.window
  }

  /** The segment is one whose acknowledgment number and window are taken. */
  predicate AckTaken(c: Conn, seg: Segment) {
    && c.status == Connected && c.open && !seg.urg && InSequence(c, seg) && !c.Socks5InProgress()
    && !seg.rst && !seg.fin && seg.ackFlag && !IsKeepAlive(c, seg)
  }

  /** How many server bytes the segment acknowledges: the last count, among the 2^32 up to the bytes sent, that has its
      acknowledgment number. */
  function AckedBytes(c: Conn, seg: Segment): int {
    SentBytes(c) - Wrap32(ISS + 1 + SentBytes(c) - seg.ackNo)
  }

  /** The first byte the client offers no room for, as far as the segment says. */
  function OfferedEdge(c: Conn, seg: Segment): int {
    AckedBytes(c, seg) + Shl(seg.win, c.scale)
  }

  /** The window offered reaches as far as what was sent: no stale or shrinking ACK. */
  predicate KeepsRoom(c: Conn, seg: Segment) {
    SentBytes(c) <= OfferedEdge(c, seg)
  }

  /** The window offered does not end exactly where the bytes sent end, unless the socket is already left alone. */
  predicate KeepsOpen(c: Conn, seg: Segment) {
    c.inRead ==> SentBytes(c) != OfferedEdge(c, seg)
  }

  function SynOptions(env: Env, seg: Segment): TcpOptions.Parsed {
    TcpOptions.Parse(seg.options, TcpOptions.Parsed(env.defaultMss, 0))
  }

  predicate IsAck(c: Conn, e: Event) {
    e.Client? && AckTaken(c, e.seg)
  }

  predicate IsSyn(c: Conn, e: Event) {
    e.Client? && c.status == New && !e.seg.urg
  }

  /** The answers of the kernel, the client and the proxy leave the connection with its socket after the SYN. */
  predicate SynOpens(env: Env, c: Conn, r: SynResult) {
    && r.socketOk
    && match r.connect
       case Failed(e) => false
       case InProgress => true
       case Done => if c.mode == Socks5 then r.hello == None else env.accepts(c.sends)
  }

  /** A SYN that opens the connection offers a window and an MSS above 0. */
  predicate OffersRoom(env: Env, c: Conn, e: Event) {
    IsSyn(c, e) && SynOpens(env, c, e.syn) ==>
      Shl(e.seg.win, SynOptions(env, e.seg).scale) > 0 && SynOptions(env, e.seg).mss > 0
  }

  // ------------------------------------------------------------------ the window arithmetic

  lemma AckIsUp(c: Conn, seg: Segment)
    requires Down(c, true) && AckTaken(c, seg)
    ensures c.zdtunSeq == Wrap32(ISS + 1 + SentBytes(c))
  {
    hide LogOk, SynN, FinN, Bytes, Longest, DataAfterSyn, InSequence, IsKeepAlive;
  }

  /** An ACK with the number of byte `a` acknowledges `a` bytes, unless 2^32 more were sent since. */
  lemma AckedBytesNumbered(c: Conn, seg: Segment, a: nat)
    ensures AckedBytes(c, seg) == a <==> seg.ackNo == Wrap32(ISS + 1 + a) && a <= SentBytes(c) < a + 0x1_0000_0000
  {
    hide SentBytes;
    LastNumbered(ISS + 1, SentBytes(c), seg.ackNo, a);
  }

  lemma LastNumbered(base: int, k: int, x: u32, a: int)
    ensures k - Wrap32(base + k - x) == a <==> x == Wrap32(base + a) && a <= k < a + 0x1_0000_0000
  {
    var f := Wrap32(base + k - x);
    var q := (base + k - x) / 0x1_0000_0000;
    assert base + k - x == f + 0x1_0000_0000 * q;
    if k - f == a {
      WrapShift(x, q);
      assert base + a == x + 0x1_0000_0000 * q;
    } else if x == Wrap32(base + a) {
      WrapAdds(base + a, base + k);
      assert f == Wrap32(k - a);
    }
  }

  lemma WindowArithmetic(zdtunSeq: u32, k: int, ackNo: u32, w: u32)
    requires zdtunSeq == Wrap32(k)
    ensures var f := Wrap32(k - ackNo);
            Wrap32(ackNo + w - zdtunSeq) == if f <= w then w - f else w - f + 0x1_0000_0000
  {
    var f := Wrap32(k - ackNo);
    WrapAdds(k, ackNo + w);
    WrapAdds(k - ackNo, w);
    assert Wrap32(w - f) == Wrap32(ackNo + w - zdtunSeq);
    Below(w - f);
  }

  lemma Below(x: int)
    requires -0x1_0000_0000 < x < 0x1_0000_0000
    ensures Wrap32(x) == if x >= 0 then x else x + 0x1_0000_0000
  {
  }

  /** The window after an ACK is the room the client offers past the bytes sent; where it offers none, because the ACK is
      stale or its window shrank, the subtraction wraps around. */
  lemma WindowAfterAckIs(c: Conn, seg: Segment)
    requires Down(c, true) && AckTaken(c, seg)
    ensures SentBytes(c) - 0x1_0000_0000 < OfferedEdge(c, seg) < SentBytes(c) + 0x1_0000_0000
    ensures WindowAfterAck(c, seg) == OfferedEdge(c, seg) - SentBytes(c) + if KeepsRoom(c, seg) then 0 else 0x1_0000_0000
  {
    AckIsUp(c, seg);
    hide Shl, SentBytes, AckTaken, Down;
    WindowArithmetic(c.zdtunSeq, ISS + 1 + SentBytes(c), seg.ackNo, Shl(seg.win, c.scale));
  }

  lemma AckIsOpen(c: Conn, seg: Segment)
    requires AckTaken(c, seg)
    ensures c.open && c.status == Connected
  {
    hide InSequence, IsKeepAlive;
  }

  /** What an accepted ACK does: the window, and the socket's place in all_fds; payload is queued. */
  lemma AckForwarded(env: Env, c: Conn, seg: Segment, r: SynResult)
    requires AckTaken(c, seg)
    ensures var w := WindowAfterAck(c, seg);
            var c1 := Rewindow(c, seg);
            && c1 == c.(window := w, inRead := c.inRead || w > 0)
            && Forward(env, c, seg, r) == if seg.payload == [] then c1 else Enqueue(c1, seg.payload, seg.psh)
  {
    hide InSequence, IsKeepAlive, WindowAfterAck, CloseConn, Enqueue, SendToClient;
  }

  /** After every accepted ACK the right edge is where the client put it, counted exactly and not only mod 2^32, if and
      only if it reaches as far as the bytes sent; otherwise it is 2^32 too far. The socket is asked for data exactly
      while there is room if and only if the edge is not just where the bytes sent end. */
  lemma WindowFollowsAck(env: Env, c: Conn, seg: Segment, r: SynResult)
    requires Down(c, true) && AckTaken(c, seg)
    ensures var c1 := Forward(env, c, seg, r);
            && c1.open && SentBytes(c1) == SentBytes(c)
            && (KeepsRoom(c, seg) <==> RightEdge(c1) == OfferedEdge(c, seg))
            && (!KeepsRoom(c, seg) <==> RightEdge(c1) == OfferedEdge(c, seg) + 0x1_0000_0000)
            && (Flow(c) ==> (KeepsOpen(c, seg) <==> Flow(c1)))
  {
    AckForwarded(env, c, seg, r);
    WindowAfterAckIs(c, seg);
    hide Down, AckTaken, Bytes, Longest, WindowAfterAck, OfferedEdge, Forward;
  }

  // ------------------------------------------------------------------ what every step does to the window

  /** The same server bytes were sent, and unless closed the flow-control fields of `c1` are those of `c`. */
  predicate SameFlow(c: Conn, c1: Conn) {
    && SentBytes(c1) == SentBytes(c) && Longest(c1.log) == Longest(c.log) && c1.mss == c.mss
    && (c1.open ==> c.open && c1.inRead == c.inRead && c1.window == c.window)
  }

  /** Server bytes, at most `n` in one packet, were sent within the window, and used it up; at 0 the socket is left alone. */
  predicate Moved(c: Conn, c1: Conn, n: nat) {
    && SentBytes(c) <= SentBytes(c1) <= (if c.open then RightEdge(c) else SentBytes(c))
    && Longest(c1.log) <= Max(Longest(c.log), n) && c1.mss == c.mss
    && (c1.open ==>
          && c.open && RightEdge(c1) == RightEdge(c)
          && (c1.inRead == (c.inRead && c1.window > 0) || (c1.inRead == c.inRead && c1.window == c.window)))
  }

  lemma SameMoved(c: Conn, c1: Conn, n: nat)
    requires SameFlow(c, c1)
    ensures Moved(c, c1, n)
  {
    hide Bytes, Longest;
  }

  lemma SentNothing(c: Conn, p: Packet)
    requires p.payload == []
    ensures |Bytes(c.log + [p])| == |Bytes(c.log)| && Longest(c.log + [p]) == Longest(c.log)
  {
    AppendCounts(c.log, p);
    LongestNext(c.log, p);
  }

  lemma ClosedFlows(env: Env, c: Conn, st: Status)
    requires Dead(c.status) ==> !c.open
    ensures !CloseConn(env, c, st).open && SameFlow(c, CloseConn(env, c, st))
  {
    hide Bytes, Longest;
    SentNothing(c, Reply(c.(open := false, inRead := false, inWrite := false), RstAck, []));
  }

  /** A packet is sent, or the connection is closed. */
  lemma SendFlows(env: Env, c: Conn, p: Packet)
    requires !Dead(c.status)
    ensures var Outcome(c1, rv) := SendToClient(env, c, p);
            if rv == 0 then c1 == Accepted(c, p) else !c1.open && c1.log == c.log && c1.mss == c.mss && Dead(c1.status)
  {
    if env.accepts(c.sends) {
      assert SendToClient(env, c, p).rv == 0;
    }
  }

  lemma EmptyPacketFlows(env: Env, c: Conn, kind: Kind)
    requires !Dead(c.status)
    ensures var Outcome(c1, rv) := SendToClient(env, c, Reply(c, kind, []));
            SameFlow(c, c1) && (rv == 0 ==> c1.status == c.status) && (Dead(c1.status) ==> !c1.open)
  {
    hide SendToClient, Bytes, Longest;
    SendFlows(env, c, Reply(c, kind, []));
    SentNothing(c, Reply(c, kind, []));
  }

  lemma RequestFlows(env: Env, c: Conn, request: bytes, next: Socks5Status, fail: Option<SockError>)
    requires !Dead(c.status)
    ensures var c1 := SendRequest(env, c, request, next, fail).c; SameFlow(c, c1) && (c1.open ==> !Dead(c1.status))
  {
    hide CloseConn, Bytes, Longest;
    if fail.Some? {
      ClosedFlows(env, c, StatusOf(fail.value));
    }
  }

  lemma SkipBoundFlows(env: Env, c: Conn, d: bytes)
    requires !Dead(c.status)
    ensures var c1 := SkipBound(env, c, d).c; SameFlow(c, c1) && (c1.open ==> !Dead(c1.status))
  {
    hide CloseConn, Bytes, Longest;
    ClosedFlows(env, c, Socks5Error);
  }

  lemma ConnectReplyFlows(env: Env, c: Conn, d: bytes)
    requires !Dead(c.status)
    ensures var c1 := ConnectReply(env, c, d).c; SameFlow(c, c1) && (c1.open ==> !Dead(c1.status))
  {
    hide CloseConn, SkipBound, Bytes, Longest;
    ClosedFlows(env, c, Socks5Error);
    ClosedFlows(env, c, Unreachable);
    ClosedFlows(env, c, SocketError);
    if |d| >= 4 {
      SkipBoundFlows(env, c.(skip := if d[3] == 1 then 6 else 18, s5 := SkipBnd), d[4..]);
    }
  }

  lemma Socks5Flows(env: Env, c: Conn, d: bytes, fail: Option<SockError>)
    requires !Dead(c.status)
    ensures var c1 := Socks5Reply(env, c, d, fail).c; SameFlow(c, c1) && (c1.open ==> !Dead(c1.status))
  {
    hide CloseConn, SendRequest, ConnectReply, SkipBound, ConnectRequest, AuthRequest, Bytes, Longest;
    ClosedFlows(env, c, Socks5Error);
    SkipBoundFlows(env, c, d);
    ConnectReplyFlows(env, c, d);
    RequestFlows(env, c, ConnectRequest(env), Requested, fail);
    if env.userPass.Some? {
      RequestFlows(env, c, AuthRequest(env.userPass.value.0, env.userPass.value.1), Auth, fail);
    }
  }

  lemma SocketSynFlows(env: Env, c: Conn, fail: Option<SockError>)
    requires !Dead(c.status)
    ensures SameFlow(c, SocketSyn(env, c, fail).c)
  {
    hide SendRequest, SendToClient, Bytes, Longest;
    var c1 := c.(inWrite := false, status := Connected);
    RequestFlows(env, c1, HelloRequest(env), Hello, fail);
    EmptyPacketFlows(env, c1, SynAck);
  }

  lemma SynAckFlows(env: Env, c: Conn)
    requires Dead(c.status) ==> !c.open
    ensures SameFlow(c, SendSynAck(env, c).c)
  {
    hide Bytes, Longest;
    var p := Reply(c, SynAck, []);
    SentNothing(c, p);
    if env.accepts(c.sends) {
      assert SendToClient(env, c, p).rv == 0;
    }
  }

  /** What a SYN makes of the window and the MSS. */
  predicate Opened(env: Env, c: Conn, seg: Segment, c1: Conn) {
    var o := SynOptions(env, seg);
    && SentBytes(c1) == SentBytes(c) && Longest(c1.log) == Longest(c.log) && (c1.mss == o.mss || c1.mss == c.mss)
    && (c1.open ==> c1.inRead && c1.window == Shl(seg.win, o.scale) && c1.mss == o.mss)
  }

  /** The first window is what the SYN offers, as the code reads it, and the socket is asked for data. */
  lemma OpenFlows(env: Env, c: Conn, seg: Segment, r: SynResult)
    requires c.status == New && !c.open
    ensures var c1 := OpenForSyn(env, c, seg, r).c;
            && Opened(env, c, seg, c1) && (Dead(c1.status) ==> !c1.open)
  {
    hide SocketSyn, CloseConn, Shl, Bytes, Longest;
    if r.socketOk {
      var o := SynOptions(env, seg);
      var c1 := c.(open := true, inRead := true, window := Shl(seg.win, o.scale), scale := o.scale, mss := o.mss);
      var c2 := c1.(clientSeq := Wrap32(seg.seqNo + 1), zdtunSeq := ISS, isn := seg.seqNo);
      if r.connect.Failed? {
        ClosedFlows(env, c1, StatusOf(r.connect.e));
      } else {
        SocketSynFlows(env, c2, r.hello);
        SocketSynDead(env, c2, r.hello);
      }
    }
  }

  lemma SocketSynOpens(env: Env, c: Conn, fail: Option<SockError>)
    requires !Dead(c.status) && c.open
    ensures var Outcome(c1, rv) := SocketSyn(env, c, fail);
            if (if c.mode == Socks5 then fail == None else env.accepts(c.sends)) then c1.open && rv == 0 else !c1.open
  {
    hide CloseConn, Bytes, Longest;
    var c1 := c.(inWrite := false, status := Connected);
    SendFlows(env, c1, Reply(c1, SynAck, []));
    if fail.Some? {
      ClosedFlows(env, c1, StatusOf(fail.value));
    }
  }

  lemma SynOpensIt(env: Env, c: Conn, seg: Segment, r: SynResult)
    requires c.status == New && !c.open && !seg.urg
    ensures Forward(env, c, seg, r).open <==> SynOpens(env, c, r)
  {
    hide SocketSyn, CloseConn, Shl, Bytes, Longest;
    var Outcome(c1, rv) := OpenForSyn(env, c, seg, r);
    OpenFlows(env, c, seg, r);
    ClosedFlows(env, c1, Error);
    if r.socketOk {
      var o := SynOptions(env, seg);
      var c2 := c.(open := true, inRead := true, window := Shl(seg.win, o.scale), scale := o.scale, mss := o.mss);
      if r.connect.Failed? {
        ClosedFlows(env, c2, StatusOf(r.connect.e));
      } else {
        SocketSynOpens(env, c2.(clientSeq := Wrap32(seg.seqNo + 1), zdtunSeq := ISS, isn := seg.seqNo), r.hello);
      }
    }
  }

  lemma SocketSynDead(env: Env, c: Conn, fail: Option<SockError>)
    requires !Dead(c.status)
    ensures Dead(SocketSyn(env, c, fail).c.status) ==> !SocketSyn(env, c, fail).c.open
  {
    hide SendRequest, SendToClient, Bytes, Longest;
    var c1 := c.(inWrite := false, status := Connected);
    RequestFlows(env, c1, HelloRequest(env), Hello, fail);
    EmptyPacketFlows(env, c1, SynAck);
  }

  /** The ACK part of a segment whose ACK is not taken. */
  lemma NoAckFlows(env: Env, c: Conn, seg: Segment)
    requires !Dead(c.status) && !(seg.ackFlag && c.open && !IsKeepAlive(c, seg))
    ensures var Outcome(c1, rv) := TakeAck(env, c, seg);
            SameFlow(c, c1) && (rv == 0 ==> c1.status == c.status) && (Dead(c1.status) ==> Dead(c.status) || !c1.open)
  {
    hide SendToClient, Bytes, Longest, IsKeepAlive, WindowAfterAck;
    EmptyPacketFlows(env, c, Ack);
  }

  lemma PayloadFlows(env: Env, c: Conn, seg: Segment)
    requires !Dead(c.status)
    ensures var c1 := TakePayload(env, c, seg).c; SameFlow(c, c1) && (Dead(c1.status) ==> !c1.open)
  {
    hide SendToClient, Bytes, Longest;
    EmptyPacketFlows(env, c.(clientSeq := Wrap32(c.clientSeq + |seg.payload|)), Ack);
  }

  lemma FinFlows(env: Env, c: Conn, seg: Segment)
    requires !Dead(c.status)
    ensures var c1 := ClientFin(env, c, seg).c; SameFlow(c, c1) && (Dead(c1.status) ==> !c1.open)
  {
    hide SendToClient, Bytes, Longest, CloseConn;
    var c1 := c.(clientSeq := Wrap32(c.clientSeq + |seg.payload| + 1), clientClosed := true);
    EmptyPacketFlows(env, c1, Ack);
    ClosedFlows(env, SendAck(env, c1).c, Closed);
  }

  lemma SameChain(c: Conn, c1: Conn, c2: Conn)
    ensures SameFlow(c, c1) && SameFlow(c1, c2) ==> SameFlow(c, c2)
  {
    hide Bytes, Longest;
  }

  /** A segment of an active connection whose ACK is not taken. */
  lemma SegmentFlows(env: Env, c: Conn, seg: Segment)
    requires c.status == Connected && !seg.urg && !AckTaken(c, seg)
    ensures var c1 := TakeSegment(env, c, seg).c; SameFlow(c, c1) && (Dead(c1.status) ==> !c1.open)
  {
    hide ClientFin, TakeAck, TakePayload, CloseConn, InSequence, IsKeepAlive, Bytes, Longest, SameFlow;
    SameSelf(c);
    ClosedFlows(env, c, Socks5Error);
    ClosedFlows(env, c, Closed);
    FinFlows(env, c, seg);
    if !seg.fin || !seg.ackFlag {
      if InSequence(c, seg) && !c.Socks5InProgress() && !seg.rst {
        RestFlows(env, c, seg);
      }
    }
  }

  lemma RestFlows(env: Env, c: Conn, seg: Segment)
    requires c.status == Connected && !(seg.ackFlag && c.open && !IsKeepAlive(c, seg))
    ensures var Outcome(c1, rv) := TakeAck(env, c, seg);
            var c2 := if rv != 0 then c1 else TakePayload(env, c1, seg).c;
            SameFlow(c, c2) && (Dead(c2.status) ==> !c2.open)
  {
    hide TakeAck, TakePayload, IsKeepAlive, SameFlow;
    NoAckFlows(env, c, seg);
    var Outcome(c1, rv) := TakeAck(env, c, seg);
    if rv == 0 {
      PayloadFlows(env, c1, seg);
      SameChain(c, c1, TakePayload(env, c1, seg).c);
    }
  }

  lemma SameSelf(c: Conn)
    ensures SameFlow(c, c)
  {
  }

  lemma FlushFlows(env: Env, c: Conn, r: nat -> SendResult)
    requires !Dead(c.status)
    ensures SameFlow(c, Flush(env, c, r).c)
  {
    hide Drain, CloseConn, SendToClient, Bytes, Longest;
    var d := Drain(c.queue, r, 0);
    var c1 := c.(queue := d.queue, given := c.given + d.sent);
    if d.error.Some? {
      ClosedFlows(env, c1, StatusOf(d.error.value));
    } else {
      EmptyPacketFlows(env, Counted(c1.(inWrite := c1.inWrite && d.queue != []), |d.sent|), Ack);
    }
  }

  lemma WritableFlows(env: Env, c: Conn, sends: nat -> SendResult, r: AsyncResult, hello: Option<SockError>)
    requires !Dead(c.status)
    ensures SameFlow(c, Writable(env, c, sends, r, hello).c)
  {
    hide Flush, SocketSyn, CloseConn, Bytes, Longest;
    FlushFlows(env, c, sends);
    SocketSynFlows(env, c, hello);
    ClosedFlows(env, c, SocketError);
    if r.AsyncFailed? {
      ClosedFlows(env, c, StatusOf(r.e));
    }
  }

  /** Relaying server bytes uses up window, and the right edge stays. */
  lemma RelayFlows(env: Env, c: Conn, d: bytes, last: bool)
    requires !Dead(c.status) && c.open
    ensures Moved(c, Relay(env, c, d, last).c, |d|)
  {
    hide SendToClient, CloseConn, Bytes, Longest, SameFlow, Moved;
    ClosedFlows(env, c, Error);
    SameMoved(c, CloseConn(env, c, Error), |d|);
    if |d| <= c.window {
      RelaySends(env, c, d, last);
    }
  }

  lemma RelaySends(env: Env, c: Conn, d: bytes, last: bool)
    requires !Dead(c.status) && c.open && |d| <= c.window
    ensures Moved(c, Relay(env, c, d, last).c, |d|)
  {
    hide SendToClient, CloseConn, Bytes, Longest;
    var p := Reply(c, if last then PushAck else Ack, d);
    SendFlows(env, c, p);
    AppendCounts(c.log, p);
    LongestNext(c.log, p);
  }

  lemma EofFlows(env: Env, c: Conn)
    requires !Dead(c.status)
    ensures !ServerEof(env, c).open && SameFlow(c, ServerEof(env, c))
  {
    hide SendToClient, Bytes, Longest, CloseConn;
    EmptyPacketFlows(env, c, FinAck);
    var Outcome(c2, rv) := SendToClient(env, c, Reply(c, FinAck, []));
    var c1 := if c.finAckSent then c
              else c2.(zdtunSeq := if rv == 0 then Wrap32(c2.zdtunSeq + 1) else c2.zdtunSeq, finAckSent := true);
    ClosedFlows(env, c1.(open := false, inRead := false, inWrite := false), Closed);
  }

  /** How many bytes recv() returned. */
  function Length(r: RecvResult): nat {
    if r.Data? then |r.d| else 0
  }

  function Brought(e: Event): nat {
    if e.CanRead? then Length(e.recv) else 0
  }

  lemma ReadableFlows(env: Env, c: Conn, r: RecvResult, fail: Option<SockError>)
    requires !Dead(c.status) && c.open
    ensures Moved(c, Readable(env, c, r, fail).c, Length(r))
  {
    hide CloseConn, Socks5Reply, SendSynAck, ServerEof, Relay, Bytes, Longest;
    match r
    case RecvFailed(e) => ClosedFlows(env, c, StatusOf(e));
    case Eof => EofFlows(env, c);
    case Data(d, last) =>
      var c0 := c.(fromServer := c.fromServer + d);
      if c.Socks5InProgress() {
        var c1 := c0.(handshake := c.handshake + |d|);
        Socks5Flows(env, c1, d, fail);
        SynAckFlows(env, Socks5Reply(env, c1, d, fail).c);
      } else {
        RelayFlows(env, c0, d, last);
      }
  }

  /** Only the client's SYN and its ACKs move the right edge. */
  lemma StepMoves(env: Env, c: Conn, e: Event)
    requires Ready(c)
    ensures var c1 := Step(env, c, e);
            if IsAck(c, e) then
              var w := WindowAfterAck(c, e.seg);
              && SentBytes(c1) == SentBytes(c) && Longest(c1.log) == Longest(c.log)
              && c1.open && c1.window == w && c1.inRead == (c.inRead || w > 0) && c1.mss == c.mss
            else if IsSyn(c, e) then Opened(env, c, e.seg, c1)
            else Moved(c, c1, Brought(e))
  {
    hide Forward, Readable, Writable, CloseConn, ItemsOk, Unsent, Bytes, Longest, AckTaken, SynOptions, WindowAfterAck, Shl, Moved, SameFlow;
    SameSelf(c);
    SameMoved(c, c, Brought(e));
    match e
    case Client(seg, syn) => ClientMoves(env, c, seg, syn);
    case CanRead(recv, fail) => if c.open && c.inRead { ReadableFlows(env, c, recv, fail); }
    case CanWrite(sends, async, hello) =>
      if c.open && c.inWrite {
        WritableFlows(env, c, sends, async, hello);
        SameMoved(c, Writable(env, c, sends, async, hello).c, 0);
      }
    case Close(st) =>
      ClosedFlows(env, c, st);
      SameMoved(c, CloseConn(env, c, st), 0);
  }

  lemma ClientMoves(env: Env, c: Conn, seg: Segment, r: SynResult)
    requires Ready(c)
    ensures var c1 := Forward(env, c, seg, r);
            if AckTaken(c, seg) then
              var w := WindowAfterAck(c, seg);
              && SentBytes(c1) == SentBytes(c) && Longest(c1.log) == Longest(c.log)
              && c1.open && c1.window == w && c1.inRead == (c.inRead || w > 0) && c1.mss == c.mss
            else if c.status == New && !seg.urg then Opened(env, c, seg, c1)
            else Moved(c, c1, 0)
  {
    if AckTaken(c, seg) {
      AckIsOpen(c, seg);
      hide Forward, WindowAfterAck, Bytes, Longest, AckTaken;
      AckForwarded(env, c, seg, r);
    } else {
      NoAckMoves(env, c, seg, r);
      hide *;
      if c.status != New || seg.urg {
        SameMoved(c, Forward(env, c, seg, r), 0);
      }
    }
  }

  lemma NoAckMoves(env: Env, c: Conn, seg: Segment, r: SynResult)
    requires Ready(c) && !AckTaken(c, seg)
    ensures var c1 := Forward(env, c, seg, r);
            if c.status == New && !seg.urg then Opened(env, c, seg, c1) else SameFlow(c, c1)
  {
    SameSelf(c);
    if !Dead(c.status) {
      var o := HandleTcpFwd(env, c, seg, r);
      HandleMoves(env, c, seg, r);
      ForwardCloses(env, c, seg, r);
      hide *;
      ClosedFlows(env, o.c, Error);
      SameChain(c, o.c, CloseConn(env, o.c, Error));
      OpenedThenClosed(env, c, seg, o.c, CloseConn(env, o.c, Error));
    }
  }

  lemma OpenedThenClosed(env: Env, c: Conn, seg: Segment, c1: Conn, c2: Conn)
    requires SameFlow(c1, c2) && !c2.open
    ensures Opened(env, c, seg, c1) ==> Opened(env, c, seg, c2)
  {
    hide Bytes, Longest, SynOptions;
  }

  lemma ForwardCloses(env: Env, c: Conn, seg: Segment, r: SynResult)
    ensures var Outcome(c1, rv) := HandleTcpFwd(env, c, seg, r);
            Forward(env, c, seg, r) == if Dead(c.status) then c else if rv != 0 then CloseConn(env, c1, Error) else c1
  {
    hide HandleTcpFwd, CloseConn;
  }

  lemma HandleMoves(env: Env, c: Conn, seg: Segment, r: SynResult)
    requires Ready(c) && !AckTaken(c, seg) && !Dead(c.status)
    ensures var c1 := HandleTcpFwd(env, c, seg, r).c;
            && (Dead(c1.status) ==> !c1.open)
            && if c.status == New && !seg.urg then Opened(env, c, seg, c1) else SameFlow(c, c1)
  {
    hide OpenForSyn, TakeSegment, CloseConn, ItemsOk, Unsent, Bytes, Longest, AckTaken, SynOptions, Shl, SameFlow;
    SameSelf(c);
    ClosedFlows(env, c, Error);
    if c.status == New {
      OpenFlows(env, c, seg, r);
    } else if c.status == Connected && !seg.urg {
      SegmentFlows(env, c, seg);
    }
  }

  // ------------------------------------------------------------------ runs: the socket is asked for data while there is room

  /** An event keeps: the socket is asked for data exactly while the client has room. The SYN does so if and only if it
      opens nothing or offers room, an accepted ACK if and only if the edge it offers is not just where the bytes sent end. */
  lemma StepFlows(env: Env, c: Conn, e: Event)
    requires Ready(c) && Down(c, true) && Flow(c)
    ensures Flow(Step(env, c, e)) <==> OffersRoom(env, c, e) && (IsAck(c, e) ==> KeepsOpen(c, e.seg))
  {
    hide Down, Step, ItemsOk, Unsent, Bytes, Longest, AckTaken, SynOptions, WindowAfterAck, OfferedEdge, SynOpens, Shl;
    StepMoves(env, c, e);
    if IsAck(c, e) {
      AckIsOpen(c, e.seg);
      WindowAfterAckIs(c, e.seg);
    } else if IsSyn(c, e) {
      SynStepOpens(env, c, e);
    }
  }

  lemma SynStepOpens(env: Env, c: Conn, e: Event)
    requires Ready(c) && IsSyn(c, e)
    ensures !c.open && (Step(env, c, e).open <==> SynOpens(env, c, e.syn))
  {
    hide Forward, SynOpens, ItemsOk, Unsent;
    SynOpensIt(env, c, e.seg, e.syn);
  }

  predicate OffersRoomIn(env: Env, c: Conn, events: seq<Event>) {
    forall i :: 0 <= i < |events| ==> OffersRoom(env, Run(env, c, events[..i]), events[i])
  }

  /** Every ACK taken keeps the socket open in the sense of KeepsOpen. */
  predicate KeepsOpenIn(env: Env, c: Conn, events: seq<Event>) {
    forall i :: 0 <= i < |events| ==>
      var c1 := Run(env, c, events[..i]); IsAck(c1, events[i]) ==> KeepsOpen(c1, events[i].seg)
  }

  predicate FlowsIn(env: Env, c: Conn, events: seq<Event>) {
    forall i :: 0 <= i <= |events| ==> Flow(Run(env, c, events[..i]))
  }

  /** What is asked of a run: possible events, and nothing read before the connection was up. */
  predicate Orderly(env: Env, c: Conn, events: seq<Event>) {
    PossibleRun(env, c, events) && !ReadsEarlyIn(env, c, events)
  }

  lemma OrderlyBefore(env: Env, mode: ProxyMode, events: seq<Event>)
    requires events != [] && Orderly(env, NewConn(true, mode), events)
    ensures var c0, before := NewConn(true, mode), events[..|events| - 1];
            && Orderly(env, c0, before) && Ready(Run(env, c0, before)) && Down(Run(env, c0, before), true)
            && Run(env, c0, events) == Step(env, Run(env, c0, before), events[|events| - 1])
  {
    var c0 := NewConn(true, mode);
    var n := |events| - 1;
    var before := events[..n];
    RunStep(env, c0, events);
    RunIsReady(env, true, mode, before);
    hide Ready, Down, Run, Step, Possible, ReadsEarly;
    assert forall i :: 0 <= i < n ==> before[..i] == events[..i] && before[i] == events[i];
    RunIsDown(env, mode, before);
  }

  /** In every run, and all through it, an open socket is in all_fds exactly while window_size is above 0 and the MSS is
      above 0, if and only if the SYN offers room, when it opens the connection, and no ACK taken puts the edge just where
      the bytes sent end. */
  lemma {:induction false} RunFlows(env: Env, mode: ProxyMode, events: seq<Event>)
    requires Orderly(env, NewConn(true, mode), events)
    ensures FlowsIn(env, NewConn(true, mode), events) <==>
              OffersRoomIn(env, NewConn(true, mode), events) && KeepsOpenIn(env, NewConn(true, mode), events)
  {
    var c0 := NewConn(true, mode);
    if events == [] {
      assert events[..0] == [];
    } else {
      OrderlyBefore(env, mode, events);
      SplitLast(env, c0, events);
      hide *;
      var n := |events| - 1;
      RunFlows(env, mode, events[..n]);
      if Flow(Run(env, c0, events[..n])) {
        StepFlows(env, Run(env, c0, events[..n]), events[n]);
      }
    }
  }

  lemma SplitLast(env: Env, c: Conn, events: seq<Event>)
    requires events != []
    ensures var n := |events| - 1;
            var c1 := Run(env, c, events[..n]);
            && (FlowsIn(env, c, events) <==> FlowsIn(env, c, events[..n]) && Flow(Run(env, c, events)))
            && (FlowsIn(env, c, events[..n]) ==> Flow(c1))
            && (OffersRoomIn(env, c, events) <==> OffersRoomIn(env, c, events[..n]) && OffersRoom(env, c1, events[n]))
            && (KeepsOpenIn(env, c, events) <==>
                  KeepsOpenIn(env, c, events[..n]) && (IsAck(c1, events[n]) ==> KeepsOpen(c1, events[n].seg)))
  {
    hide *;
    SplitFlows(env, c, events);
    SplitOffers(env, c, events);
    SplitOpens(env, c, events);
  }

  lemma SplitFlows(env: Env, c: Conn, events: seq<Event>)
    requires events != []
    ensures var n := |events| - 1;
            && (FlowsIn(env, c, events) <==> FlowsIn(env, c, events[..n]) && Flow(Run(env, c, events)))
            && (FlowsIn(env, c, events[..n]) ==> Flow(Run(env, c, events[..n])))
  {
    hide Flow, Run;
    var n := |events| - 1;
    var before := events[..n];
    assert events[..n + 1] == events && before[..n] == before;
    if FlowsIn(env, c, events) {
      forall i | 0 <= i <= n
        ensures Flow(Run(env, c, before[..i]))
      {
        assert before[..i] == events[..i];
      }
    }
    if FlowsIn(env, c, before) && Flow(Run(env, c, events)) {
      forall i | 0 <= i <= n + 1
        ensures Flow(Run(env, c, events[..i]))
      {
        assert i <= n ==> before[..i] == events[..i];
      }
    }
  }

  lemma SplitOffers(env: Env, c: Conn, events: seq<Event>)
    requires events != []
    ensures var n := |events| - 1;
            OffersRoomIn(env, c, events) <==> OffersRoomIn(env, c, events[..n]) && OffersRoom(env, Run(env, c, events[..n]), events[n])
  {
    hide Run, OffersRoom;
    var n := |events| - 1;
    assert forall i :: 0 <= i < n ==> events[..n][..i] == events[..i] && events[..n][i] == events[i];
  }

  lemma SplitOpens(env: Env, c: Conn, events: seq<Event>)
    requires events != []
    ensures var n := |events| - 1;
            var c1 := Run(env, c, events[..n]);
            KeepsOpenIn(env, c, events) <==>
              KeepsOpenIn(env, c, events[..n]) && (IsAck(c1, events[n]) ==> KeepsOpen(c1, events[n].seg))
  {
    hide Run, KeepsOpen, IsAck;
    var n := |events| - 1;
    assert forall i :: 0 <= i < n ==> events[..n][..i] == events[..i] && events[..n][i] == events[i];
  }

  /** While the invariant holds recv() is never asked for 0 bytes, so a 0 result always means end of stream. */
  lemma FlowAsks(c: Conn)
    ensures Flow(c) && c.open && c.inRead ==> ToRecv(c) > 0
  {
  }

  // ------------------------------------------------------------------ runs: nothing past the edge the client offered

  /** The edge after the next event: where the client's SYN, read as the code reads it, or its last ACK taken put it. */
  function NextEdge(env: Env, c: Conn, e: Event, edge: int): int {
    if IsAck(c, e) then OfferedEdge(c, e.seg)
    else if IsSyn(c, e) then Shl(e.seg.win, SynOptions(env, e.seg).scale)
    else edge
  }

  /** The edge the client last offered in a run, computed from what it sent. */
  function Edge(env: Env, c: Conn, events: seq<Event>): int {
    if events == [] then 0
    else
      var n := |events| - 1;
      NextEdge(env, Run(env, c, events[..n]), events[n], Edge(env, c, events[..n]))
  }

  /** The register agrees with the edge offered, and nothing was sent past it. */
  predicate EdgeIs(c: Conn, edge: int) {
    SentBytes(c) <= edge && (c.open ==> RightEdge(c) == edge)
  }

  /** An event keeps that, unless it is an ACK that does not keep room. */
  lemma StepKeepsEdge(env: Env, c: Conn, e: Event, edge: int)
    requires Ready(c) && Down(c, true) && EdgeIs(c, edge)
    ensures var c1, edge1 := Step(env, c, e), NextEdge(env, c, e, edge);
            if IsAck(c, e) && !KeepsRoom(c, e.seg) then SentBytes(c1) > edge1 && RightEdge(c1) == edge1 + 0x1_0000_0000
            else EdgeIs(c1, edge1)
  {
    hide Down, Step, ItemsOk, Unsent, Bytes, Longest, AckTaken, SynOptions, WindowAfterAck, OfferedEdge, Shl;
    StepMoves(env, c, e);
    if c.status == New {
      NewSentNothing(c);
    }
    if IsAck(c, e) {
      AckIsOpen(c, e.seg);
      WindowAfterAckIs(c, e.seg);
    }
  }

  /** Nothing was sent past the edge last offered, after any of the events. */
  predicate WithinEdge(env: Env, c: Conn, events: seq<Event>) {
    forall i :: 0 <= i <= |events| ==> SentBytes(Run(env, c, events[..i])) <= Edge(env, c, events[..i])
  }

  predicate KeepsRoomIn(env: Env, c: Conn, events: seq<Event>) {
    forall i :: 0 <= i < |events| ==>
      var c1 := Run(env, c, events[..i]); IsAck(c1, events[i]) ==> KeepsRoom(c1, events[i].seg)
  }

  /** In every run, and all through it, no server byte is sent past the edge that the client last offered, if and only if
      no ACK taken offers less than was sent before it; the window register then ends at that edge. */
  lemma {:induction false} NothingPastTheEdge(env: Env, mode: ProxyMode, events: seq<Event>)
    requires Orderly(env, NewConn(true, mode), events)
    ensures WithinEdge(env, NewConn(true, mode), events) <==> KeepsRoomIn(env, NewConn(true, mode), events)
    ensures KeepsRoomIn(env, NewConn(true, mode), events) ==>
              EdgeIs(Run(env, NewConn(true, mode), events), Edge(env, NewConn(true, mode), events))
  {
    var c0 := NewConn(true, mode);
    if events == [] {
      assert events[..0] == [];
    } else {
      OrderlyBefore(env, mode, events);
      EdgeStep(env, c0, events);
      SplitWithin(env, c0, events);
      SplitRoom(env, c0, events);
      hide *;
      var n := |events| - 1;
      NothingPastTheEdge(env, mode, events[..n]);
      if KeepsRoomIn(env, c0, events[..n]) {
        var c, edge := Run(env, c0, events[..n]), Edge(env, c0, events[..n]);
        StepKeepsEdge(env, c, events[n], edge);
        EdgeHolds(Run(env, c0, events), Edge(env, c0, events));
      }
    }
  }

  lemma EdgeHolds(c: Conn, edge: int)
    ensures EdgeIs(c, edge) ==> SentBytes(c) <= edge
  {
  }

  lemma NewSentNothing(c: Conn)
    requires Down(c, true) && c.status == New
    ensures SentBytes(c) == 0
  {
    hide LogOk, DataAfterSyn;
  }

  lemma EdgeStep(env: Env, c: Conn, events: seq<Event>)
    requires events != []
    ensures var n := |events| - 1;
            Edge(env, c, events) == NextEdge(env, Run(env, c, events[..n]), events[n], Edge(env, c, events[..n]))
  {
  }

  lemma SplitWithin(env: Env, c: Conn, events: seq<Event>)
    requires events != []
    ensures WithinEdge(env, c, events) <==>
              WithinEdge(env, c, events[..|events| - 1]) && SentBytes(Run(env, c, events)) <= Edge(env, c, events)
  {
    hide Run, Edge, SentBytes;
    var n := |events| - 1;
    assert forall i :: 0 <= i <= n ==> events[..n][..i] == events[..i];
    assert events[..n + 1] == events;
  }

  lemma SplitRoom(env: Env, c: Conn, events: seq<Event>)
    requires events != []
    ensures var n := |events| - 1;
            var c1 := Run(env, c, events[..n]);
            KeepsRoomIn(env, c, events) <==>
              KeepsRoomIn(env, c, events[..n]) && (IsAck(c1, events[n]) ==> KeepsRoom(c1, events[n].seg))
  {
    hide Run, KeepsRoom, IsAck;
    var n := |events| - 1;
    assert forall i :: 0 <= i < n ==> events[..n][..i] == events[..i] && events[..n][i] == events[i];
  }

  /** The right edge does not move left (section 3.8.6 of RFC 9293), or nothing was sent yet and there is room. */
  predicate NotShrunk(c: Conn, e: Event, edge: int) {
    IsAck(c, e) ==> OfferedEdge(c, e.seg) >= edge || (SentBytes(c) == 0 < OfferedEdge(c, e.seg))
  }

  predicate NeverShrinks(env: Env, c: Conn, events: seq<Event>) {
    forall i :: 0 <= i < |events| ==> NotShrunk(Run(env, c, events[..i]), events[i], Edge(env, c, events[..i]))
  }

  lemma NotShrunkKeeps(c: Conn, e: Event, edge: int)
    requires Flow(c) && EdgeIs(c, edge) && NotShrunk(c, e, edge) && IsAck(c, e)
    ensures KeepsRoom(c, e.seg) && KeepsOpen(c, e.seg)
  {
    AckIsOpen(c, e.seg);
    hide AckTaken, OfferedEdge, Bytes, Longest;
  }

  /** So for a client whose right edge never moves left, once its handshake ACK came before any server byte, all holds
      in every run: nothing is sent past the edge, an open socket is in all_fds exactly while window_size is above 0,
      and recv() is never asked for 0 bytes. */
  lemma {:induction false} RightEdgeKept(env: Env, mode: ProxyMode, events: seq<Event>)
    requires Orderly(env, NewConn(true, mode), events) && OffersRoomIn(env, NewConn(true, mode), events)
    requires NeverShrinks(env, NewConn(true, mode), events)
    ensures KeepsRoomIn(env, NewConn(true, mode), events) && KeepsOpenIn(env, NewConn(true, mode), events)
    ensures WithinEdge(env, NewConn(true, mode), events) && FlowsIn(env, NewConn(true, mode), events)
    ensures var c := Run(env, NewConn(true, mode), events); c.open && c.inRead ==> ToRecv(c) > 0
  {
    var c0 := NewConn(true, mode);
    if events != [] {
      SplitShrinks(env, c0, events);
      SplitOffers(env, c0, events);
      OrderlyBefore(env, mode, events);
      hide *;
      RightEdgeKept(env, mode, events[..|events| - 1]);
      AckKeepsEdge(env, mode, events);
    }
    hide *;
    NothingPastTheEdge(env, mode, events);
    RunFlows(env, mode, events);
    LastFlows(env, c0, events);
    FlowAsks(Run(env, c0, events));
  }

  /** The last event, if it is an ACK, keeps room and keeps the socket open when all those before did. */
  lemma AckKeepsEdge(env: Env, mode: ProxyMode, events: seq<Event>)
    requires events != [] && Orderly(env, NewConn(true, mode), events) && NeverShrinks(env, NewConn(true, mode), events)
    requires var before := events[..|events| - 1];
             KeepsRoomIn(env, NewConn(true, mode), before) && KeepsOpenIn(env, NewConn(true, mode), before)
             && FlowsIn(env, NewConn(true, mode), before)
    ensures KeepsRoomIn(env, NewConn(true, mode), events) && KeepsOpenIn(env, NewConn(true, mode), events)
  {
    hide *;
    var c0, n := NewConn(true, mode), |events| - 1;
    OrderlyBefore(env, mode, events);
    SplitFlows(env, c0, events);
    SplitOpens(env, c0, events);
    SplitRoom(env, c0, events);
    SplitShrinks(env, c0, events);
    NothingPastTheEdge(env, mode, events[..n]);
    var c, edge := Run(env, c0, events[..n]), Edge(env, c0, events[..n]);
    if IsAck(c, events[n]) {
      NotShrunkKeeps(c, events[n], edge);
    }
  }

  lemma LastFlows(env: Env, c: Conn, events: seq<Event>)
    requires FlowsIn(env, c, events)
    ensures Flow(Run(env, c, events))
  {
    hide Flow, Run;
    assert events[..|events|] == events;
  }

  lemma SplitShrinks(env: Env, c: Conn, events: seq<Event>)
    requires events != [] && NeverShrinks(env, c, events)
    ensures var n := |events| - 1;
            NeverShrinks(env, c, events[..n]) && NotShrunk(Run(env, c, events[..n]), events[n], Edge(env, c, events[..n]))
  {
    hide Run, Edge, NotShrunk;
    var n := |events| - 1;
    assert forall i :: 0 <= i < n ==> events[..n][..i] == events[..i] && events[..n][i] == events[i];
  }

  // ------------------------------------------------------------------ the first window

  lemma {:induction false} Pow2Grows(m: nat, n: nat)
    requires m <= n
    ensures 1 <= Pow2(m) <= Pow2(n) && (0 < m ==> Pow2(m) > 1)
  {
    if m < n {
      Pow2Grows(m, n - 1);
    } else if m > 0 {
      Pow2Grows(m - 1, m - 1);
    }
  }

  /** A SYN's window is not scaled (section 2.2 of RFC 7323), but the code shifts it: the first edge is the one the SYN
      offers if and only if that is 0 or the client asks for no scaling. */
  lemma SynWindowScaled(win: u16, scale: nat)
    requires scale <= 14
    ensures Shl(win, scale) == win <==> win == 0 || scale == 0
  {
    assert Pow2(14) == 0x4000 && Pow2(0) == 1;
    Pow2Grows(scale, 14);
    hide Pow2;
    var f := Pow2(scale);
    Product(win, f);
  }

  lemma Product(win: u16, f: nat)
    requires 0 < f <= 0x4000
    ensures 0 <= win * f < 0x1_0000_0000 && (win * f == win <==> win == 0 || f == 1)
  {
  }

  // ------------------------------------------------------------------ how long a packet can be

  /** An event keeps the MSS, unless it is the SYN, and brings no payload longer than it. */
  lemma StepSized(env: Env, c: Conn, e: Event)
    requires Ready(c) && Possible(c, e) && Longest(c.log) <= c.mss && (c.status == New ==> Longest(c.log) == 0)
    ensures var c1 := Step(env, c, e);
            && Longest(c1.log) <= c1.mss
            && (c1.mss == c.mss || (IsSyn(c, e) && c1.mss == SynOptions(env, e.seg).mss))
  {
    hide Step, ItemsOk, Unsent, Bytes, Longest, AckTaken, SynOptions, WindowAfterAck, Shl, ToRecv;
    StepMoves(env, c, e);
    if e.CanRead? && c.open && c.inRead {
      AsksForMss(c);
    } else if e.CanRead? {
      NotRead(env, c, e);
    }
  }

  lemma AsksForMss(c: Conn)
    ensures ToRecv(c) <= c.mss
  {
  }

  lemma NotRead(env: Env, c: Conn, e: Event)
    requires e.CanRead? && !(c.open && c.inRead)
    ensures Step(env, c, e) == c
  {
  }

  /** Every SYN in the run carries the options `options`. */
  predicate SynSays(env: Env, c: Conn, events: seq<Event>, options: bytes) {
    forall i :: 0 <= i < |events| && IsSyn(Run(env, c, events[..i]), events[i]) ==> events[i].seg.options == options
  }

  lemma SplitSays(env: Env, c: Conn, events: seq<Event>, options: bytes)
    requires events != [] && SynSays(env, c, events, options) && PossibleRun(env, c, events)
    ensures var n := |events| - 1;
            && SynSays(env, c, events[..n], options) && PossibleRun(env, c, events[..n])
            && Possible(Run(env, c, events[..n]), events[n])
            && (IsSyn(Run(env, c, events[..n]), events[n]) ==> events[n].seg.options == options)
  {
    hide Run, Possible, IsSyn;
    var n := |events| - 1;
    assert forall i :: 0 <= i < n ==> events[..n][..i] == events[..i] && events[..n][i] == events[i];
  }

  /** In every run no payload is longer than the MSS in the SYN, and recv() is asked for no more. */
  lemma {:induction false} PayloadsWithinMss(env: Env, mode: ProxyMode, events: seq<Event>, options: bytes)
    requires PossibleRun(env, NewConn(true, mode), events) && SynSays(env, NewConn(true, mode), events, options)
    ensures var c, m := Run(env, NewConn(true, mode), events), TcpOptions.Parse(options, TcpOptions.Parsed(env.defaultMss, 0)).mss;
            Longest(c.log) <= c.mss <= m && ToRecv(c) <= m
  {
    var c0 := NewConn(true, mode);
    AsksForMss(Run(env, c0, events));
    if events != [] {
      var before := events[..|events| - 1];
      var c := Run(env, c0, before);
      RunStep(env, c0, events);
      SplitSays(env, c0, events, options);
      hide *;
      PayloadsWithinMss(env, mode, before, options);
      RunIsReady(env, true, mode, before);
      RunIsDown(env, mode, before);
      NewIsSilent(c, !ReadsEarlyIn(env, c0, before));
      StepSized(env, c, events[|events| - 1]);
      SaysMss(env, c, events[|events| - 1], options);
    }
  }

  lemma NewIsSilent(c: Conn, strict: bool)
    requires Down(c, strict)
    ensures c.status == New ==> Longest(c.log) == 0
  {
    hide LogOk, Proper;
  }

  lemma SaysMss(env: Env, c: Conn, e: Event, options: bytes)
    requires IsSyn(c, e) ==> e.seg.options == options
    ensures IsSyn(c, e) ==> SynOptions(env, e.seg).mss == TcpOptions.Parse(options, TcpOptions.Parsed(env.defaultMss, 0)).mss
  {
  }

  /** Whatever a client does after a SYN with the options `options`, no payload it receives is longer than `n`. */
  ghost predicate AlwaysWithin(options: bytes, defaultMss: nat, n: nat) {
    forall env: Env, mode, events {:trigger Run(env, NewConn(true, mode), events)} ::
      env.defaultMss == defaultMss && PossibleRun(env, NewConn(true, mode), events) && SynSays(env, NewConn(true, mode), events, options) ==>
        Longest(Run(env, NewConn(true, mode), events).log) <= n
  }

  /** A SYN with these options and the widest window, answered at once, and a read of `m` bytes. */
  function LongestRead(options: bytes, m: nat): seq<Event> {
    [Client(Segment(0, 0, 0xFFFF, false, false, false, false, false, options, []), SynResult(true, Done, None)),
     CanRead(Data(seq(m, i => 0), true), None)]
  }

  /** Payloads always fit in `n` bytes if and only if the MSS does: nothing but the MSS bounds what is read. The scale is
      one by which C can shift. */
  lemma PayloadsFit(options: bytes, defaultMss: u16, n: nat)
    requires TcpOptions.Parse(options, TcpOptions.Parsed(defaultMss, 0)).scale < 32
    ensures AlwaysWithin(options, defaultMss, n) <==> TcpOptions.Parse(options, TcpOptions.Parsed(defaultMss, 0)).mss <= n
  {
    var m := TcpOptions.Parse(options, TcpOptions.Parsed(defaultMss, 0)).mss;
    if m <= n {
      forall env: Env, mode, events | env.defaultMss == defaultMss && PossibleRun(env, NewConn(true, mode), events)
                                      && SynSays(env, NewConn(true, mode), events, options)
        ensures Longest(Run(env, NewConn(true, mode), events).log) <= n
      {
        hide Longest, Run, PossibleRun, SynSays;
        PayloadsWithinMss(env, mode, events, options);
      }
    } else {
      var env := Env(i => true, None, 4, [], [], defaultMss);
      ReadsMss(env, options);
      hide Longest, Run, PossibleRun, SynSays, LongestRead;
      assert Longest(Run(env, NewConn(true, NoProxy), LongestRead(options, m)).log) > n;
    }
  }

  lemma ReadsMss(env: Env, options: bytes)
    requires env.defaultMss < 0x1_0000 && (forall i: nat :: env.accepts(i))
    requires var o := TcpOptions.Parse(options, TcpOptions.Parsed(env.defaultMss, 0)); o.scale < 32 && o.mss > 0
    ensures var m, c0 := TcpOptions.Parse(options, TcpOptions.Parsed(env.defaultMss, 0)).mss, NewConn(true, NoProxy);
            var events := LongestRead(options, m);
            PossibleRun(env, c0, events) && SynSays(env, c0, events, options) && Longest(Run(env, c0, events).log) >= m
  {
    var o, c0 := TcpOptions.Parse(options, TcpOptions.Parsed(env.defaultMss, 0)), NewConn(true, NoProxy);
    var events := LongestRead(options, o.mss);
    MssIsWord(options, TcpOptions.Parsed(env.defaultMss, 0));
    WidestWindow(o.scale);
    hide Shl, Run, Step, Longest, TcpOptions.Parse;
    RunOfTwo(env, c0, events);
    SynAnswered(env, events[0].seg);
    WholeMssRead(env, Step(env, c0, events[0]), o.mss);
  }

  lemma RunOfTwo(env: Env, c: Conn, events: seq<Event>)
    requires |events| == 2
    ensures events[..0] == [] && Run(env, c, []) == c && Run(env, c, events[..1]) == Step(env, c, events[0])
    ensures Run(env, c, events) == Step(env, Step(env, c, events[0]), events[1])
  {
    hide Step;
    assert events[..1][..0] == [] && events[..1][0] == events[0];
    RunStep(env, c, events[..1]);
    RunStep(env, c, events);
  }

  lemma SynAnswered(env: Env, seg: Segment)
    requires !seg.urg && (forall i: nat :: env.accepts(i))
    ensures var o := SynOptions(env, seg);
            var c := Step(env, NewConn(true, NoProxy), Client(seg, SynResult(true, Done, None)));
            && c.status == Connected && c.open && c.inRead && c.mode == NoProxy
            && c.window == Shl(seg.win, o.scale) && c.mss == o.mss
  {
    hide Shl, TcpOptions.Parse, CloseConn;
    assert env.accepts(0);
  }

  lemma WholeMssRead(env: Env, c: Conn, m: nat)
    requires c.status == Connected && c.open && c.inRead && c.mode == NoProxy && c.mss == m && c.window >= m > 0
    requires forall i: nat :: env.accepts(i)
    ensures var e := CanRead(Data(seq(m, i => 0), true), None);
            Possible(c, e) && Longest(Step(env, c, e).log) >= m
  {
    var d: bytes := seq(m, i => 0);
    var p := Reply(c.(fromServer := c.fromServer + d), PushAck, d);
    hide CloseConn, Longest;
    LongestNext(c.log, p);
    assert Step(env, c, CanRead(Data(d, true), None)).log == c.log + [p];
  }

  lemma {:induction false} MssIsWord(o: bytes, p: TcpOptions.Parsed)
    requires p.mss < 0x1_0000
    ensures TcpOptions.Parse(o, p).mss < 0x1_0000
  {
    if |o| <= 1 {
    } else if o[0] == TcpOptions.OPT_NOP {
      MssIsWord(o[1..], p);
    } else if o[0] != TcpOptions.OPT_END && o[1] >= 2 && |o| >= o[1] {
      MssIsWord(o[o[1]..],
                if o[0] == TcpOptions.OPT_MSS && o[1] == 4 then p.(mss := o[2] as int * 256 + o[3])
                else if o[0] == TcpOptions.OPT_SCALE && o[1] == 3 then p.(scale := o[2])
                else p);
    }
  }

  /** Shifted by any scale, the widest window has no less than 65535 bytes. */
  lemma WidestWindow(scale: nat)
    requires scale < 32
    ensures Shl(0xFFFF, scale) >= 0xFFFF
  {
    assert Pow2(16) == 0x1_0000 by { assert Pow2(14) == 0x4000; }
    if scale <= 16 {
      Pow2Grows(0, scale);
      Pow2Grows(scale, 16);
      hide Pow2;
      Widened(Pow2(scale));
    } else {
      Pow2Grows(0, scale - 16);
      Pow2Grows(scale - 16, 15);
      assert Pow2(15) == 0x8000 by { assert Pow2(14) == 0x4000; }
      Pow2Sum(16, scale - 16);
      hide Pow2;
      WidenedPast(Pow2(scale - 16));
    }
  }

  lemma {:induction false} Pow2Sum(m: nat, n: nat)
    ensures Pow2(m + n) == Pow2(m) * Pow2(n)
  {
    if n > 0 {
      Pow2Sum(m, n - 1);
    }
  }

  lemma Widened(f: nat)
    requires 1 <= f <= 0x1_0000
    ensures Wrap32(0xFFFF * f) >= 0xFFFF
  {
  }

  lemma WidenedPast(q: nat)
    requires 1 <= q <= 0x8000
    ensures Wrap32(0xFFFF * (0x1_0000 * q)) >= 0xFFFF
  {
    WrapShift(0xFFFF * (0x1_0000 * q), 1 - q);
    assert 0xFFFF * (0x1_0000 * q) + 0x1_0000_0000 * (1 - q) == 0x1_0000_0000 - 0x1_0000 * q;
  }
}
