/** Readiness: what a connection's queue, status and fd-set membership have to do with each other, over every run. */
module TcpReadiness {
  import opened Words
  import opened TcpProxy

  /** Only the head item is partly sent, and no item is fully sent. */
  predicate ItemsOk(q: seq<Item>) {
    forall i :: 0 <= i < |q| ==> q[i].sofar < |q[i].data| && (i > 0 ==> q[i].sofar == 0)
  }

  predicate Ready(c: Conn) {
    && (Dead(c.status) ==> !c.open)
    && (c.status == New ==> !c.open && c.queue == [] && c.qsize == 0)
    && (c.status == Connecting ==> c.queue == [])
    && (!c.open ==> !c.inRead && !c.inWrite)
    && (c.open ==> (c.inWrite <==> c.status == Connecting || c.queue != []))
    && (!Dead(c.status) ==> ItemsOk(c.queue) && c.qsize == Wrap32(|Unsent(c.queue)|))
  }

  // ------------------------------------------------------------------ the queue

  lemma {:induction false} UnsentAppend(q: seq<Item>, x: Item)
    ensures Unsent(q + [x]) == Unsent(q) + x.Rest()
  {
    if q == [] {
      assert q + [x] == [x];
    } else {
      assert (q + [x])[1..] == q[1..] + [x];
      UnsentAppend(q[1..], x);
    }
  }

  lemma ItemsAppend(q: seq<Item>, x: Item)
    requires ItemsOk(q) && x.sofar == 0 && x.data != []
    ensures ItemsOk(q + [x])
  {
  }

  lemma ItemsSplit(q: seq<Item>, n: nat)
    requires ItemsOk(q) && q != []
    ensures ItemsOk(q[1..]) && q[0].sofar < |q[0].data|
    ensures n < |q[0].Rest()| ==> ItemsOk([q[0].(sofar := q[0].sofar + n)] + q[1..])
  {
  }

  lemma NothingUnsent()
    ensures Unsent([]) == []
  {
  }

  lemma UnsentHead(x: Item, q: seq<Item>)
    ensures Unsent([x] + q) == x.Rest() + Unsent(q)
  {
    assert ([x] + q)[1..] == q;
  }

  lemma RestSplit(x: Item, n: nat)
    requires x.sofar <= |x.data| && n <= |x.Rest()|
    ensures x.Rest() == x.Rest()[..n] + x.(sofar := x.sofar + n).Rest()
  {
  }

  lemma DrainStep(q: seq<Item>, r: nat -> SendResult, i: nat)
    requires q != []
    ensures Drain(q, r, i) ==
            if !r(i).Sent? then Drained(q, [], if r(i).Again? then None else Some(r(i).e))
            else if r(i).n < |q[0].Rest()| then
              Drained([q[0].(sofar := q[0].sofar + r(i).n)] + q[1..], q[0].Rest()[..r(i).n], None)
            else
              Drained(Drain(q[1..], r, i + 1).queue, q[0].Rest() + Drain(q[1..], r, i + 1).sent, Drain(q[1..], r, i + 1).error)
  {
  }

  lemma DrainPart(x: Item, n: nat, t: seq<Item>)
    requires ItemsOk([x] + t) && n < |x.Rest()|
    ensures var y := x.(sofar := x.sofar + n);
            ItemsOk([y] + t) && Unsent([x] + t) == x.Rest()[..n] + Unsent([y] + t)
  {
    ItemsSplit([x] + t, n);
    hide ItemsOk, Unsent;
    assert ([x] + t)[1..] == t;
    var y := x.(sofar := x.sofar + n);
    UnsentHead(x, t);
    RestSplit(x, n);
    UnsentHead(y, t);
    ConcatAssoc(x.Rest()[..n], y.Rest(), Unsent(t));
  }

  lemma DrainWhole(x: Item, t: seq<Item>, d: Drained)
    requires Unsent(t) == d.sent + Unsent(d.queue)
    ensures Unsent([x] + t) == (x.Rest() + d.sent) + Unsent(d.queue)
  {
    UnsentHead(x, t);
    hide Unsent;
    ConcatAssoc(x.Rest(), d.sent, Unsent(d.queue));
  }

  /** Draining accepts bytes from the front of the queue, in order, and leaves the others. */
  lemma {:induction false} DrainTakesPrefix(q: seq<Item>, r: nat -> SendResult, i: nat)
    requires ItemsOk(q)
    ensures var d := Drain(q, r, i);
            ItemsOk(d.queue) && Unsent(q) == d.sent + Unsent(d.queue) && (q == [] ==> d.queue == [])
    decreases |q|, 1
  {
    if q == [] {
      assert Drain(q, r, i) == Drained([], [], None);
    } else {
      ItemsSplit(q, 0);
      DrainStep(q, r, i);
      DrainPrefixStep(q, r, i);
    }
  }

  lemma {:induction false} DrainPrefixStep(q: seq<Item>, r: nat -> SendResult, i: nat)
    requires q != [] && ItemsOk(q) && ItemsOk(q[1..])
    ensures var d := Drain(q, r, i); ItemsOk(d.queue) && Unsent(q) == d.sent + Unsent(d.queue)
    decreases |q|, 0
  {
    var x, t := q[0], q[1..];
    DrainStep(q, r, i);
    hide *;
    assert q == [x] + t;
    if r(i).Sent? {
      if r(i).n < |x.Rest()| {
        DrainPart(x, r(i).n, t);
      } else {
        DrainTakesPrefix(t, r, i + 1);
        DrainWhole(x, t, Drain(t, r, i + 1));
      }
    }
  }

  // ------------------------------------------------------------------ every step keeps readiness

  /** What a close leaves behind. */
  predicate Ended(c: Conn) {
    Dead(c.status) && !c.open && !c.inRead && !c.inWrite
  }

  lemma CloseEnds(env: Env, c: Conn, st: Status)
    requires Dead(c.status) ==> Ended(c)
    ensures Ended(CloseConn(env, c, st)) && Ready(CloseConn(env, c, st))
  {
    hide ItemsOk, Unsent;
  }

  lemma ReadyMayClose(c: Conn)
    requires Ready(c)
    ensures Dead(c.status) ==> Ended(c)
  {
  }

  lemma SendKeeps(env: Env, c: Conn, p: Packet)
    requires Ready(c)
    ensures var Outcome(c1, rv) := SendToClient(env, c, p);
            && Ready(c1)
            && (if rv == 0 then c1 == c.(sends := c.sends + 1, log := c.log + [p]) else Ended(c1))
  {
    hide ItemsOk, Unsent;
    if env.accepts(c.sends) {
      assert SendToClient(env, c, p).rv == 0;
    }
  }

  lemma RequestKeeps(env: Env, c: Conn, request: bytes, next: Socks5Status, fail: Option<SockError>)
    requires Ready(c)
    ensures Ready(SendRequest(env, c, request, next, fail).c)
  {
    if fail.Some? {
      CloseEnds(env, c, StatusOf(fail.value));
    }
  }

  lemma SkipBoundKeeps(env: Env, c: Conn, d: bytes)
    requires Ready(c)
    ensures Ready(SkipBound(env, c, d).c)
  {
    hide CloseConn, Unsent, ItemsOk;
    CloseEnds(env, c, Socks5Error);
  }

  lemma ConnectReplyKeeps(env: Env, c: Conn, d: bytes)
    requires Ready(c)
    ensures Ready(ConnectReply(env, c, d).c)
  {
    hide CloseConn, SkipBound, Unsent, ItemsOk;
    CloseEnds(env, c, Socks5Error);
    CloseEnds(env, c, Unreachable);
    CloseEnds(env, c, SocketError);
    if |d| >= 4 {
      SkipBoundKeeps(env, c.(skip := if d[3] == 1 then 6 else 18, s5 := SkipBnd), d[4..]);
    }
  }

  lemma Socks5Keeps(env: Env, c: Conn, d: bytes, fail: Option<SockError>)
    requires Ready(c)
    ensures Ready(Socks5Reply(env, c, d, fail).c)
  {
    hide CloseConn, SendRequest, ConnectRequest, AuthRequest, ConnectReply, SkipBound, Ready;
    ReadyMayClose(c);
    SkipBoundKeeps(env, c, d);
    CloseEnds(env, c, Socks5Error);
    RequestKeeps(env, c, ConnectRequest(env), Requested, fail);
    if env.userPass.Some? {
      RequestKeeps(env, c, AuthRequest(env.userPass.value.0, env.userPass.value.1), Auth, fail);
    }
    ConnectReplyKeeps(env, c, d);
  }

  lemma SynAckKeeps(env: Env, c: Conn)
    requires Ready(c)
    ensures Ready(SendSynAck(env, c).c)
  {
    hide ItemsOk, Unsent;
    SendKeeps(env, c, Reply(c, SynAck, []));
  }

  lemma SocketSynKeeps(env: Env, c: Conn, fail: Option<SockError>)
    requires c.open && c.queue == [] && c.qsize == 0
    ensures Ready(SocketSyn(env, c, fail).c)
  {
    var c1 := c.(inWrite := false, status := Connected);
    RequestKeeps(env, c1, HelloRequest(env), Hello, fail);
    SynAckKeeps(env, c1);
  }

  lemma OpenKeeps(env: Env, c: Conn, seg: Segment, r: SynResult)
    requires Ready(c) && c.status == New
    ensures Ready(OpenForSyn(env, c, seg, r).c)
  {
    hide SocketSyn, CloseConn, Shl;
    if r.socketOk {
      var o := TcpProxy.TcpOptions.Parse(seg.options, TcpProxy.TcpOptions.Parsed(env.defaultMss, 0));
      var c1 := c.(open := true, inRead := true, window := Shl(seg.win, o.scale), scale := o.scale, mss := o.mss);
      var c2 := c1.(clientSeq := Wrap32(seg.seqNo + 1), zdtunSeq := ISS, isn := seg.seqNo);
      SocketSynKeeps(env, c2, r.hello);
      if r.connect.Failed? {
        CloseEnds(env, c1, StatusOf(r.connect.e));
      }
    }
  }

  lemma AckKeeps(env: Env, c: Conn)
    requires Ready(c)
    ensures Ready(SendAck(env, c).c)
  {
    SendKeeps(env, c, Reply(c, Ack, []));
  }

  lemma PayloadKeeps(env: Env, c: Conn, seg: Segment)
    requires Ready(c) && c.status == Connected
    ensures Ready(TakePayload(env, c, seg).c)
  {
    hide ItemsOk, Unsent, SendAck;
    if seg.payload != [] {
      if c.open {
        var x := Item(seg.payload, 0, seg.psh);
        UnsentAppend(c.queue, x);
        ItemsAppend(c.queue, x);
        assert x.Rest() == seg.payload;
      } else {
        AckKeeps(env, c.(clientSeq := Wrap32(c.clientSeq + |seg.payload|)));
      }
    }
  }

  lemma FinKeeps(env: Env, c: Conn, seg: Segment)
    requires Ready(c)
    ensures Ready(ClientFin(env, c, seg).c)
  {
    hide SendToClient, ItemsOk, Unsent, CloseConn;
    var c1 := c.(clientSeq := Wrap32(c.clientSeq + |seg.payload| + 1), clientClosed := true);
    AckKeeps(env, c1);
    CloseEnds(env, SendAck(env, c1).c, Closed);
  }

  lemma TakeAckKeeps(env: Env, c: Conn, seg: Segment)
    requires Ready(c)
    ensures var Outcome(c1, rv) := TakeAck(env, c, seg);
            Ready(c1) && (rv == 0 ==> c1.status == c.status && c1.open == c.open)
  {
    hide ItemsOk, Unsent, SendToClient;
    SendKeeps(env, c, Reply(c, Ack, []));
  }

  lemma ForwardKeeps(env: Env, c: Conn, seg: Segment, r: SynResult)
    requires Ready(c)
    ensures Ready(Forward(env, c, seg, r))
  {
    hide OpenForSyn, ClientFin, TakeAck, TakePayload, CloseConn, ItemsOk, Unsent, InSequence;
    if !Dead(c.status) {
      CloseEnds(env, c, Error);
      CloseEnds(env, c, Socks5Error);
      CloseEnds(env, c, Closed);
      if c.status == New {
        OpenKeeps(env, c, seg, r);
      }
      FinKeeps(env, c, seg);
      TakeAckKeeps(env, c, seg);
      if c.status == Connected && TakeAck(env, c, seg).rv == 0 {
        PayloadKeeps(env, TakeAck(env, c, seg).c, seg);
      }
      CloseEnds(env, HandleTcpFwd(env, c, seg, r).c, Error);
    }
  }

  lemma AfterSendKeeps(env: Env, c: Conn, sent: nat)
    requires c.open && !Dead(c.status) && c.status != New && (c.status == Connecting ==> c.queue == []) && ItemsOk(c.queue)
    requires c.status != Connecting && c.inWrite && Wrap32(c.qsize - sent) == Wrap32(|Unsent(c.queue)|)
    ensures Ready(AfterSend(env, c, sent).c)
  {
    hide ItemsOk, Unsent, SendAck;
    var c1 := c.(inWrite := c.inWrite && c.queue != []);
    if sent > 0 {
      AckKeeps(env, Counted(c1, sent));
    }
  }

  lemma FlushKeeps(env: Env, c: Conn, r: nat -> SendResult)
    requires Ready(c) && !Dead(c.status) && c.queue != [] && c.open
    ensures Ready(Flush(env, c, r).c)
  {
    hide Drain, CloseConn, AfterSend, ItemsOk, Unsent;
    var d := Drain(c.queue, r, 0);
    DrainTakesPrefix(c.queue, r, 0);
    var c1 := c.(queue := d.queue, given := c.given + d.sent);
    if d.error.Some? {
      CloseEnds(env, c1, StatusOf(d.error.value));
    } else {
      WrapAdds(|Unsent(c.queue)|, |d.sent|);
      AfterSendKeeps(env, c1, |d.sent|);
    }
  }

  lemma WritableKeeps(env: Env, c: Conn, sends: nat -> SendResult, r: AsyncResult, hello: Option<SockError>)
    requires Ready(c) && c.open && c.inWrite
    ensures Ready(Writable(env, c, sends, r, hello).c)
  {
    hide Flush, SocketSyn, CloseConn, ItemsOk;
    if c.queue != [] {
      FlushKeeps(env, c, sends);
    }
    CloseEnds(env, c, SocketError);
    if c.queue == [] {
      assert c.qsize == 0;
      SocketSynKeeps(env, c, hello);
    }
    if r.AsyncFailed? {
      CloseEnds(env, c, StatusOf(r.e));
    }
  }

  lemma EofKeeps(env: Env, c: Conn)
    requires Ready(c) && c.open
    ensures Ready(ServerEof(env, c))
  {
    hide CloseConn, ItemsOk, Unsent;
    SendKeeps(env, c, Reply(c, FinAck, []));
    var Outcome(c2, rv) := SendToClient(env, c, Reply(c, FinAck, []));
    var c1 := if c.finAckSent then c
              else c2.(zdtunSeq := if rv == 0 then Wrap32(c2.zdtunSeq + 1) else c2.zdtunSeq, finAckSent := true);
    CloseEnds(env, c1.(open := false, inRead := false, inWrite := false), Closed);
  }

  lemma RelayKeeps(env: Env, c: Conn, d: bytes, last: bool)
    requires Ready(c) && c.open
    ensures Ready(Relay(env, c, d, last).c)
  {
    hide CloseConn, ItemsOk, Unsent, SendToClient;
    CloseEnds(env, c, Error);
    SendKeeps(env, c, Reply(c, if last then PushAck else Ack, d));
  }

  lemma ReadableKeeps(env: Env, c: Conn, r: RecvResult, fail: Option<SockError>)
    requires Ready(c) && c.open
    ensures Ready(Readable(env, c, r, fail).c)
  {
    hide CloseConn, ItemsOk, Unsent, Socks5Reply, SendSynAck, ServerEof, Relay;
    match r
    case RecvFailed(e) => CloseEnds(env, c, StatusOf(e));
    case Eof => EofKeeps(env, c);
    case Data(d, last) =>
      var c0 := c.(fromServer := c.fromServer + d);
      var c1 := c0.(handshake := c.handshake + |d|);
      Socks5Keeps(env, c1, d, fail);
      SynAckKeeps(env, Socks5Reply(env, c1, d, fail).c);
      RelayKeeps(env, c0, d, last);
  }

  lemma StepKeepsReady(env: Env, c: Conn, e: Event)
    requires Ready(c)
    ensures Ready(Step(env, c, e))
  {
    hide Forward, Readable, Writable, CloseConn, ItemsOk, Unsent;
    match e
    case Client(seg, syn) => ForwardKeeps(env, c, seg, syn);
    case CanRead(recv, fail) => if c.open { ReadableKeeps(env, c, recv, fail); }
    case CanWrite(sends, async, hello) => if c.open && c.inWrite { WritableKeeps(env, c, sends, async, hello); }
    case Close(st) => CloseEnds(env, c, st);
  }

  /** In every reachable state a live connection with an open socket is in write_fds exactly while it is connecting
      or has bytes queued; connecting means an empty queue, only the head item is partly sent, and tx_queue_size is
      the number of unsent bytes (mod 2^32). Whatever the network, the proxy or the client do. */
  lemma {:induction false} RunIsReady(env: Env, isTcp: bool, mode: ProxyMode, events: seq<Event>)
    ensures Ready(Run(env, NewConn(isTcp, mode), events))
  {
    if events != [] {
      var before := events[..|events| - 1];
      RunIsReady(env, isTcp, mode, before);
      StepKeepsReady(env, Run(env, NewConn(isTcp, mode), before), events[|events| - 1]);
    }
  }

  /** So the branch that completes a connection on a writable socket with an empty queue runs only while connecting:
      a SYN+ACK is never sent twice through it. */
  lemma WritableWithEmptyQueue(env: Env, isTcp: bool, mode: ProxyMode, events: seq<Event>)
    ensures var c := Run(env, NewConn(isTcp, mode), events);
            c.open && c.inWrite && c.queue == [] ==> c.status == Connecting
  {
    RunIsReady(env, isTcp, mode, events);
  }
}
