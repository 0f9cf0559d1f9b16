/** Downstream: how the packets a client receives are numbered, and what they carry, over every run. */
module TcpDownstream {
  import opened Words
  import opened TcpProxy
  import opened TcpReadiness

  function SynN(log: seq<Packet>): nat {
    if log == [] then 0 else SynN(log[..|log| - 1]) + if log[|log| - 1].kind == SynAck then 1 else 0
  }

  function FinN(log: seq<Packet>): nat {
    if log == [] then 0 else FinN(log[..|log| - 1]) + if log[|log| - 1].kind == FinAck then 1 else 0
  }

  /** The payloads received, concatenated. */
  function Bytes(log: seq<Packet>): bytes {
    if log == [] then [] else Bytes(log[..|log| - 1]) + log[|log| - 1].payload
  }

  /** The sequence number after `log`: a SYN and a FIN take one number each, a byte takes one. */
  function SeqAfter(log: seq<Packet>): u32 {
    Wrap32(ISS + SynN(log) + |Bytes(log)| + FinN(log))
  }

  /** What holds of the i-th packet received. */
  predicate PacketOk(log: seq<Packet>, i: nat)
    requires i < |log|
  {
    var p := log[i];
    && p.live
    && (p.kind != RstAck ==> p.seqNo == SeqAfter(log[..i]))
    && (p.payload != [] ==> (p.kind == Ack || p.kind == PushAck))
    && FinN(log[..i]) <= (if p.payload == [] && p.kind != FinAck && p.kind != RstAck then 1 else 0)
    && (i > 0 ==> log[i - 1].kind != RstAck)
  }

  /** Every packet is numbered after all before it and sent while the status is neither closed nor an error; no byte, FIN
      or RST follows a FIN; nothing follows a RST. */
  predicate LogOk(log: seq<Packet>) {
    forall i :: 0 <= i < |log| ==> PacketOk(log, i)
  }

  predicate EndsWithRst(log: seq<Packet>) {
    log != [] && log[|log| - 1].kind == RstAck
  }

  lemma {:induction false} LogAppend(log: seq<Packet>, p: Packet)
    requires LogOk(log) && !EndsWithRst(log) && p.live
    requires p.kind != RstAck ==> p.seqNo == SeqAfter(log)
    requires p.payload != [] ==> p.kind == Ack || p.kind == PushAck
    requires FinN(log) <= if p.payload == [] && p.kind != FinAck && p.kind != RstAck then 1 else 0
    ensures var l := log + [p];
            && LogOk(l)
            && SynN(l) == SynN(log) + (if p.kind == SynAck then 1 else 0)
            && FinN(l) == FinN(log) + (if p.kind == FinAck then 1 else 0)
            && Bytes(l) == Bytes(log) + p.payload
            && (EndsWithRst(l) <==> p.kind == RstAck)
  {
    hide SynN, FinN, Bytes, SeqAfter, PacketOk;
    var l := log + [p];
    AppendCounts(log, p);
    forall i | 0 <= i < |l|
      ensures PacketOk(l, i)
    {
      if i < |log| {
        PacketPrefix(log, p, i);
      } else {
        PacketLast(log, p);
      }
    }
  }

  lemma AppendCounts(log: seq<Packet>, p: Packet)
    ensures SynN(log + [p]) == SynN(log) + (if p.kind == SynAck then 1 else 0)
    ensures FinN(log + [p]) == FinN(log) + (if p.kind == FinAck then 1 else 0)
    ensures Bytes(log + [p]) == Bytes(log) + p.payload
  {
    assert (log + [p])[..|log|] == log;
  }

  lemma PacketPrefix(log: seq<Packet>, p: Packet, i: nat)
    requires i < |log|
    ensures PacketOk(log + [p], i) <==> PacketOk(log, i)
  {
    assert (log + [p])[..i] == log[..i];
  }

  lemma PacketLast(log: seq<Packet>, p: Packet)
    requires !EndsWithRst(log) && p.live
    requires p.kind != RstAck ==> p.seqNo == SeqAfter(log)
    requires p.payload != [] ==> p.kind == Ack || p.kind == PushAck
    requires FinN(log) <= if p.payload == [] && p.kind != FinAck && p.kind != RstAck then 1 else 0
    ensures PacketOk(log + [p], |log|)
  {
    assert (log + [p])[..|log|] == log;
  }

  // ------------------------------------------------------------------ numbering, in every run

  predicate Numbered(c: Conn) {
    && LogOk(c.log)
    && FinN(c.log) <= 1
    && (Dead(c.status) ==> !c.open)
    && (c.status == New ==> c.log == [] && !c.finAckSent && c.fromServer == [] && c.handshake == 0)
    && (!Dead(c.status) && c.status != New ==> c.zdtunSeq == SeqAfter(c.log))
    && (!Dead(c.status) ==> !EndsWithRst(c.log))
    && (FinN(c.log) > 0 ==> c.finAckSent)
    && (c.open ==> !c.finAckSent)
  }

  predicate Sendable(c: Conn, kind: Kind, payload: bytes) {
    && c.isTcp && !Dead(c.status) && c.status != New && kind != RstAck
    && (payload != [] ==> kind == Ack || kind == PushAck)
    && (payload != [] || kind == FinAck ==> !c.finAckSent)
  }

  lemma AcceptedNumbered(c: Conn, kind: Kind, payload: bytes)
    requires Numbered(c) && Sendable(c, kind, payload)
    ensures var l := c.log + [Reply(c, kind, payload)];
            && LogOk(l) && !EndsWithRst(l)
            && SynN(l) == SynN(c.log) + (if kind == SynAck then 1 else 0)
            && FinN(l) == FinN(c.log) + (if kind == FinAck then 1 else 0)
            && Bytes(l) == Bytes(c.log) + payload
            && SeqAfter(l) == Wrap32(c.zdtunSeq + |payload| + if kind == SynAck || kind == FinAck then 1 else 0)
  {
    hide LogOk, SynN, FinN, Bytes;
    LogAppend(c.log, Reply(c, kind, payload));
    WrapAdds(ISS + SynN(c.log) + |Bytes(c.log)| + FinN(c.log), |payload| + if kind == SynAck || kind == FinAck then 1 else 0);
  }

  lemma RefusedNumbered(c: Conn)
    requires Numbered(c) && !Dead(c.status)
    ensures Numbered(Refused(c)) && Dead(Refused(c).status) && Refused(c).log == c.log
  {
    hide LogOk, FinN, SeqAfter;
  }

  /** A packet other than a RST goes out under the next number, or the connection is closed. */
  lemma SendNumbered(env: Env, c: Conn, kind: Kind, payload: bytes)
    requires Numbered(c) && Sendable(c, kind, payload)
    ensures var Outcome(c1, rv) := SendToClient(env, c, Reply(c, kind, payload));
            if rv == 0 then
              && c1 == Accepted(c, Reply(c, kind, payload))
              && LogOk(c1.log) && !EndsWithRst(c1.log)
              && SynN(c1.log) == SynN(c.log) + (if kind == SynAck then 1 else 0)
              && FinN(c1.log) == FinN(c.log) + (if kind == FinAck then 1 else 0)
              && Bytes(c1.log) == Bytes(c.log) + payload
              && SeqAfter(c1.log) == Wrap32(c.zdtunSeq + |payload| + if kind == SynAck || kind == FinAck then 1 else 0)
            else c1 == Refused(c) && Numbered(c1) && Dead(c1.status) && c1.log == c.log
  {
    AcceptedNumbered(c, kind, payload);
    RefusedNumbered(c);
    hide LogOk, SynN, FinN, Bytes, Numbered, SeqAfter, Refused, EndsWithRst;
    if env.accepts(c.sends) {
      assert SendToClient(env, c, Reply(c, kind, payload)).rv == 0;
    }
  }

  lemma CloseNumbered(env: Env, c: Conn, st: Status)
    requires Numbered(c) && c.isTcp
    ensures var c1 := CloseConn(env, c, st);
            && Numbered(c1) && Dead(c1.status)
            && SynN(c1.log) == SynN(c.log) && Bytes(c1.log) == Bytes(c.log)
            && (c1.log == c.log || c1.log == c.log + [Reply(c.(open := false), RstAck, [])])
  {
    hide LogOk, SynN, FinN, Bytes, SeqAfter;
    if !Dead(c.status) && !c.finAckSent {
      LogAppend(c.log, Reply(c.(open := false), RstAck, []));
      assert Bytes(c.log) + [] == Bytes(c.log);
    }
  }

  // ------------------------------------------------------------------ order and content, while nothing is read too early

  /** No byte was received before the SYN+ACK. */
  predicate DataAfterSyn(log: seq<Packet>) {
    forall i :: 0 <= i < |log| && log[i].payload != [] ==> SynN(log[..i]) >= 1
  }

  /** One SYN+ACK, sent once the connection (and the SOCKS5 handshake) is up and before any byte; what was received is
      what recv() returned after the handshake. */
  predicate Proper(c: Conn) {
    && SynN(c.log) <= 1 && DataAfterSyn(c.log)
    && (!Dead(c.status) ==> SynN(c.log) == if c.status == Connected && !c.Socks5InProgress() then 1 else 0)
    && c.handshake <= |c.fromServer|
    && Bytes(c.log) <= c.fromServer[c.handshake..]
    && (!Dead(c.status) ==> Bytes(c.log) == c.fromServer[c.handshake..])
    && (!Dead(c.status) && c.mode == Socks5 && (c.s5 != Established || c.status != Connected) ==>
          c.handshake == |c.fromServer|)
  }

  /** The invariant; the second part only where `strict` says that nothing was read before the connection was up. */
  predicate Down(c: Conn, strict: bool) {
    Numbered(c) && c.isTcp && (strict ==> Proper(c))
  }

  lemma DataAfterSynAppend(log: seq<Packet>, p: Packet)
    requires DataAfterSyn(log) && (p.payload != [] ==> SynN(log) >= 1)
    ensures DataAfterSyn(log + [p])
  {
    var l := log + [p];
    forall i | 0 <= i < |l| && l[i].payload != []
      ensures SynN(l[..i]) >= 1
    {
      assert i < |log| ==> l[..i] == log[..i];
      assert i == |log| ==> l[..i] == log;
    }
  }

  /** After a close the content received is a prefix of what was read. */
  predicate Delivered(c: Conn) {
    && SynN(c.log) <= 1 && DataAfterSyn(c.log) && c.handshake <= |c.fromServer|
    && Bytes(c.log) <= c.fromServer[c.handshake..]
  }

  lemma CloseDown(env: Env, c: Conn, st: Status, strict: bool)
    requires Numbered(c) && c.isTcp && (strict ==> Delivered(c))
    ensures Down(CloseConn(env, c, st), strict) && Dead(CloseConn(env, c, st).status)
  {
    hide Numbered, SynN, Bytes, DataAfterSyn;
    CloseNumbered(env, c, st);
    if strict {
      DataAfterSynAppend(c.log, Reply(c.(open := false), RstAck, []));
    }
  }

  lemma AcceptedDelivers(c: Conn, p: Packet)
    requires Delivered(c) && p.payload == [] && (p.kind == SynAck ==> SynN(c.log) == 0)
    ensures Delivered(Accepted(c, p))
  {
    hide SynN, DataAfterSyn, Bytes;
    AppendCounts(c.log, p);
    DataAfterSynAppend(c.log, p);
  }

  lemma RefusedDown(c: Conn, strict: bool)
    requires Numbered(c) && c.isTcp && !Dead(c.status) && (strict ==> Delivered(c))
    ensures Down(Refused(c), strict) && Dead(Refused(c).status)
  {
    hide Numbered, SynN, DataAfterSyn, Bytes;
    RefusedNumbered(c);
  }

  /** A packet without payload. */
  lemma SendDown(env: Env, c: Conn, kind: Kind, strict: bool)
    requires Numbered(c) && c.isTcp && !Dead(c.status) && c.status != New && (strict ==> Delivered(c))
    requires kind == Ack || kind == SynAck || (kind == FinAck && !c.finAckSent)
    requires strict && kind == SynAck ==> SynN(c.log) == 0
    ensures var Outcome(c1, rv) := SendToClient(env, c, Reply(c, kind, []));
            if rv == 0 then
              && c1 == Accepted(c, Reply(c, kind, []))
              && LogOk(c1.log) && !EndsWithRst(c1.log)
              && SynN(c1.log) == SynN(c.log) + (if kind == SynAck then 1 else 0)
              && FinN(c1.log) == FinN(c.log) + (if kind == FinAck then 1 else 0)
              && Bytes(c1.log) == Bytes(c.log)
              && SeqAfter(c1.log) == Wrap32(c.zdtunSeq + if kind == SynAck || kind == FinAck then 1 else 0)
              && (strict ==> Delivered(c1))
            else Down(c1, strict) && Dead(c1.status)
  {
    RefusedDown(c, strict);
    SendNumbered(env, c, kind, []);
    hide Numbered, SynN, FinN, Bytes, LogOk, SeqAfter, Delivered, Down, EndsWithRst, SendToClient;
    assert Bytes(c.log) + [] == Bytes(c.log);
    if strict {
      AcceptedDelivers(c, Reply(c, kind, []));
    }
  }

  lemma AckDown(env: Env, c: Conn, strict: bool)
    requires Down(c, strict) && !Dead(c.status) && c.status != New
    ensures Down(SendAck(env, c).c, strict)
    ensures SendAck(env, c).rv == 0 ==> SendAck(env, c).c == c.(sends := c.sends + 1, log := SendAck(env, c).c.log)
    ensures SendAck(env, c).rv != 0 ==> Dead(SendAck(env, c).c.status)
  {
    hide SynN, FinN, Bytes, DataAfterSyn, LogOk, SendToClient;
    SendDown(env, c, Ack, strict);
    WrapAdds(ISS + SynN(c.log) + |Bytes(c.log)| + FinN(c.log), 0);
  }

  lemma SynAckDown(env: Env, c: Conn, strict: bool)
    requires Numbered(c) && c.isTcp && !Dead(c.status) && c.status != New && (strict ==> Delivered(c))
    requires strict ==> c.status == Connected && !c.Socks5InProgress() && SynN(c.log) == 0
                        && Bytes(c.log) == c.fromServer[c.handshake..]
    ensures Down(SendSynAck(env, c).c, strict)
  {
    hide SynN, FinN, Bytes, DataAfterSyn, LogOk, SendToClient, SeqAfter;
    SendDown(env, c, SynAck, strict);
  }

  // ------------------------------------------------------------------ every step

  /** Connected to the server, with a SOCKS5 handshake still to run or the SYN+ACK still to be sent. */
  predicate BeforeSyn(c: Conn) {
    Delivered(c) && SynN(c.log) == 0 && Bytes(c.log) == c.fromServer[c.handshake..] && c.status == Connected
  }

  lemma RequestDown(env: Env, c: Conn, request: bytes, next: Socks5Status, fail: Option<SockError>, strict: bool)
    requires Numbered(c) && c.isTcp && !Dead(c.status) && next != Established
    requires strict ==> BeforeSyn(c) && c.mode == Socks5 && c.handshake == |c.fromServer|
    ensures Down(SendRequest(env, c, request, next, fail).c, strict)
    ensures SendRequest(env, c, request, next, fail).c.s5 in {c.s5, next}
  {
    hide SynN, FinN, Bytes, DataAfterSyn, LogOk, SeqAfter, CloseConn;
    if fail.Some? {
      CloseDown(env, c, StatusOf(fail.value), strict);
      CloseKeepsMode(env, c, StatusOf(fail.value));
    }
  }

  lemma CloseKeepsMode(env: Env, c: Conn, st: Status)
    ensures CloseConn(env, c, st).s5 == c.s5 && CloseConn(env, c, st).mode == c.mode
  {
  }

  /** What the handling of handshake bytes leads to: still in the handshake, over, or ready for the SYN+ACK. */
  predicate Shaken(c: Conn, rv: int, strict: bool) {
    && Numbered(c) && c.isTcp
    && (if c.s5 == Established && rv == 0 then
          !Dead(c.status) && c.status != New && (strict ==> BeforeSyn(c) && !c.Socks5InProgress())
        else Down(c, strict))
  }

  lemma SkipDown(env: Env, c: Conn, d: bytes, strict: bool)
    requires Numbered(c) && c.isTcp && !Dead(c.status) && c.status != New && c.s5 == SkipBnd
    requires strict ==> BeforeSyn(c) && c.mode == Socks5 && c.handshake == |c.fromServer|
    ensures var Outcome(c1, rv) := SkipBound(env, c, d); Shaken(c1, rv, strict)
  {
    hide SynN, FinN, Bytes, DataAfterSyn, LogOk, SeqAfter, CloseConn;
    CloseDown(env, c, Socks5Error, strict);
  }

  lemma ConnectReplyDown(env: Env, c: Conn, d: bytes, strict: bool)
    requires Numbered(c) && c.isTcp && !Dead(c.status) && c.status != New && c.s5 == Requested
    requires strict ==> BeforeSyn(c) && c.mode == Socks5 && c.handshake == |c.fromServer|
    ensures var Outcome(c1, rv) := ConnectReply(env, c, d); Shaken(c1, rv, strict)
  {
    hide SynN, FinN, Bytes, DataAfterSyn, LogOk, SeqAfter, CloseConn, SkipBound;
    CloseDown(env, c, Socks5Error, strict);
    CloseDown(env, c, Unreachable, strict);
    CloseDown(env, c, SocketError, strict);
    CloseKeepsMode(env, c, Socks5Error);
    CloseKeepsMode(env, c, Unreachable);
    CloseKeepsMode(env, c, SocketError);
    if |d| >= 4 {
      SkipDown(env, c.(skip := if d[3] == 1 then 6 else 18, s5 := SkipBnd), d[4..], strict);
    }
  }

  lemma Socks5Down(env: Env, c: Conn, d: bytes, fail: Option<SockError>, strict: bool)
    requires Numbered(c) && c.isTcp && !Dead(c.status) && c.status != New && c.Socks5InProgress()
    requires strict ==> BeforeSyn(c) && c.handshake == |c.fromServer|
    ensures var Outcome(c1, rv) := Socks5Reply(env, c, d, fail); Shaken(c1, rv, strict)
  {
    hide Numbered, BeforeSyn, Proper, CloseConn, SkipBound, ConnectReply, SendRequest, ConnectRequest, AuthRequest;
    assert strict ==> Delivered(c) by { BeforeSynDelivers(c); }
    CloseDown(env, c, Socks5Error, strict);
    CloseKeepsMode(env, c, Socks5Error);
    RequestDown(env, c, ConnectRequest(env), Requested, fail, strict);
    if env.userPass.Some? {
      RequestDown(env, c, AuthRequest(env.userPass.value.0, env.userPass.value.1), Auth, fail, strict);
    }
    if c.s5 == Requested {
      ConnectReplyDown(env, c, d, strict);
    } else if c.s5 == SkipBnd {
      SkipDown(env, c, d, strict);
    }
  }

  lemma BeforeSynDelivers(c: Conn)
    ensures BeforeSyn(c) ==> Delivered(c)
  {
  }

  lemma SocketSynDown(env: Env, c: Conn, fail: Option<SockError>, strict: bool)
    requires Numbered(c.(status := Connected)) && c.isTcp && !Dead(c.status)
    requires strict ==> BeforeSyn(c.(status := Connected)) && (c.mode == Socks5 ==> c.handshake == |c.fromServer|)
    ensures Down(SocketSyn(env, c, fail).c, strict)
  {
    hide SynN, FinN, Bytes, DataAfterSyn, LogOk, SeqAfter, CloseConn, SendSynAck, SendRequest;
    var c1 := c.(inWrite := false, status := Connected);
    if c.mode == Socks5 {
      RequestDown(env, c1, HelloRequest(env), Hello, fail, strict);
    } else {
      SynAckDown(env, c1, strict);
    }
  }

  lemma NothingYet()
    ensures SynN([]) == 0 && Bytes([]) == [] && FinN([]) == 0 && LogOk([]) && DataAfterSyn([]) && SeqAfter([]) == ISS
  {
  }

  lemma OpenDown(env: Env, c: Conn, seg: Segment, r: SynResult, strict: bool)
    requires Down(c, strict) && c.status == New && !c.open
    ensures Down(OpenForSyn(env, c, seg, r).c, strict)
  {
    NothingYet();
    hide SynN, FinN, Bytes, DataAfterSyn, LogOk, SeqAfter, SocketSyn, CloseConn, Shl;
    if r.socketOk {
      var o := TcpProxy.TcpOptions.Parse(seg.options, TcpProxy.TcpOptions.Parsed(env.defaultMss, 0));
      var c1 := c.(open := true, inRead := true, window := Shl(seg.win, o.scale), scale := o.scale, mss := o.mss);
      var c2 := c1.(clientSeq := Wrap32(seg.seqNo + 1), zdtunSeq := ISS, isn := seg.seqNo);
      if r.connect.Failed? {
        CloseDown(env, c1, StatusOf(r.connect.e), strict);
      } else if r.connect.Done? {
        SocketSynDown(env, c2, r.hello, strict);
      }
    }
  }

  lemma FinDown(env: Env, c: Conn, seg: Segment, strict: bool)
    requires Down(c, strict) && !Dead(c.status) && c.status != New
    ensures Down(ClientFin(env, c, seg).c, strict)
  {
    hide SynN, FinN, Bytes, DataAfterSyn, LogOk, SeqAfter, CloseConn, SendToClient;
    var c1 := c.(clientSeq := Wrap32(c.clientSeq + |seg.payload| + 1), clientClosed := true);
    AckDown(env, c1, strict);
    ProperDelivers(SendAck(env, c1).c);
    CloseDown(env, SendAck(env, c1).c, Closed, strict);
  }

  lemma ProperDelivers(c: Conn)
    ensures Proper(c) ==> Delivered(c)
  {
  }

  lemma TakeAckDown(env: Env, c: Conn, seg: Segment, strict: bool)
    requires Down(c, strict) && !Dead(c.status) && c.status != New
    ensures var Outcome(c1, rv) := TakeAck(env, c, seg);
            Down(c1, strict) && (rv == 0 ==> c1.status == c.status)
  {
    hide SynN, FinN, Bytes, DataAfterSyn, LogOk, SeqAfter, SendAck, WindowAfterAck;
    AckDown(env, c, strict);
  }

  lemma PayloadDown(env: Env, c: Conn, seg: Segment, strict: bool)
    requires Down(c, strict) && !Dead(c.status) && c.status != New
    ensures Down(TakePayload(env, c, seg).c, strict)
  {
    hide SynN, FinN, Bytes, DataAfterSyn, LogOk, SeqAfter, SendAck;
    AckDown(env, c.(clientSeq := Wrap32(c.clientSeq + |seg.payload|)), strict);
  }

  lemma ForwardDown(env: Env, c: Conn, seg: Segment, r: SynResult, strict: bool)
    requires Down(c, strict) && (c.status == New ==> !c.open)
    ensures Down(Forward(env, c, seg, r), strict)
  {
    hide Numbered, Proper, OpenForSyn, ClientFin, TakeAck, TakePayload, CloseConn, InSequence;
    if !Dead(c.status) {
      ProperDelivers(c);
      CloseDown(env, c, Error, strict);
      CloseDown(env, c, Socks5Error, strict);
      CloseDown(env, c, Closed, strict);
      if c.status == New {
        OpenDown(env, c, seg, r, strict);
      } else {
        FinDown(env, c, seg, strict);
        TakeAckDown(env, c, seg, strict);
        if TakeAck(env, c, seg).rv == 0 {
          PayloadDown(env, TakeAck(env, c, seg).c, seg, strict);
        }
      }
      var c1 := HandleTcpFwd(env, c, seg, r).c;
      ProperDelivers(c1);
      CloseDown(env, c1, Error, strict);
    }
  }

  lemma FlushDown(env: Env, c: Conn, r: nat -> SendResult, strict: bool)
    requires Down(c, strict) && !Dead(c.status) && c.status != New
    ensures Down(Flush(env, c, r).c, strict)
  {
    hide SynN, FinN, Bytes, DataAfterSyn, LogOk, SeqAfter, SendAck, CloseConn, Drain;
    var d := Drain(c.queue, r, 0);
    var c1 := c.(queue := d.queue, given := c.given + d.sent);
    if d.error.Some? {
      CloseDown(env, c1, StatusOf(d.error.value), strict);
    } else {
      AckDown(env, Counted(c1.(inWrite := c1.inWrite && d.queue != []), |d.sent|), strict);
    }
  }

  lemma WritableDown(env: Env, c: Conn, sends: nat -> SendResult, r: AsyncResult, hello: Option<SockError>, strict: bool)
    requires Down(c, strict) && c.open && c.status != New && (c.queue == [] ==> c.status == Connecting)
    ensures Down(Writable(env, c, sends, r, hello).c, strict)
  {
    hide SynN, FinN, Bytes, DataAfterSyn, LogOk, SeqAfter, CloseConn, SocketSyn, Flush;
    if c.queue != [] {
      FlushDown(env, c, sends, strict);
    } else {
      CloseDown(env, c, SocketError, strict);
      SocketSynDown(env, c, hello, strict);
      if r.AsyncFailed? {
        CloseDown(env, c, StatusOf(r.e), strict);
      }
    }
  }

  lemma EofDown(env: Env, c: Conn, strict: bool)
    requires Down(c, strict) && c.open && c.status != New
    ensures Down(ServerEof(env, c), strict)
  {
    hide SynN, FinN, Bytes, DataAfterSyn, LogOk, SeqAfter, CloseConn, SendToClient;
    SendDown(env, c, FinAck, strict);
    var Outcome(c2, rv) := SendToClient(env, c, Reply(c, FinAck, []));
    var c1 := c2.(zdtunSeq := if rv == 0 then Wrap32(c2.zdtunSeq + 1) else c2.zdtunSeq, finAckSent := true);
    var c3 := c1.(open := false, inRead := false, inWrite := false);
    CloseDown(env, c3, Closed, strict);
  }

  lemma AcceptedData(c: Conn, d: bytes, p: Packet, x: Conn)
    requires Proper(c) && !Dead(c.status) && c.status == Connected && !c.Socks5InProgress()
    requires p.payload == d && p.kind != SynAck
    requires x.log == c.log + [p] && x.fromServer == c.fromServer + d && x.handshake == c.handshake
    requires x.status == Connected && x.mode == c.mode && x.s5 == c.s5
    ensures Proper(x)
  {
    hide SynN, DataAfterSyn, Bytes;
    AppendCounts(c.log, p);
    DataAfterSynAppend(c.log, p);
    assert x.fromServer[c.handshake..] == c.fromServer[c.handshake..] + d;
  }

  lemma RelayDown(env: Env, c: Conn, d: bytes, last: bool, strict: bool)
    requires Down(c, strict) && c.open && c.status != New && d != [] && !c.Socks5InProgress()
    requires strict ==> c.status == Connected
    ensures Down(Relay(env, c.(fromServer := c.fromServer + d), d, last).c, strict)
  {
    hide SynN, FinN, Bytes, DataAfterSyn, LogOk, SeqAfter, CloseConn, SendToClient, Refused;
    var c0 := c.(fromServer := c.fromServer + d);
    var kind := if last then PushAck else Ack;
    var x := Relay(env, c0, d, last).c;
    if c.window < |d| {
      CloseDown(env, c0, Error, strict);
    } else {
      SendNumbered(env, c0, kind, d);
      if SendToClient(env, c0, Reply(c0, kind, d)).rv != 0 {
        RefusedDown(c0, strict);
      } else if strict {
        AcceptedData(c, d, Reply(c0, kind, d), x);
      }
    }
  }

  lemma ReadableDown(env: Env, c: Conn, r: RecvResult, fail: Option<SockError>, strict: bool)
    requires Down(c, strict) && c.open && c.status != New && RecvWithin(c, r)
    requires strict && r.Data? ==> c.status == Connected
    ensures Down(Readable(env, c, r, fail).c, strict)
  {
    hide SynN, FinN, Bytes, DataAfterSyn, LogOk, SeqAfter, CloseConn, Socks5Reply, SendSynAck, ServerEof, Relay;
    EofDown(env, c, strict);
    match r
    case RecvFailed(e) => CloseDown(env, c, StatusOf(e), strict);
    case Eof =>
    case Data(d, last) =>
      if c.Socks5InProgress() {
        var c1 := c.(fromServer := c.fromServer + d, handshake := c.handshake + |d|);
        Socks5Down(env, c1, d, fail, strict);
        var Outcome(c2, rv) := Socks5Reply(env, c1, d, fail);
        if c2.s5 == Established && rv == 0 {
          SynAckDown(env, c2, strict);
        }
      } else {
        RelayDown(env, c, d, last, strict);
      }
  }

  // ------------------------------------------------------------------ runs

  /** An event the kernel can report in state `c`. */
  predicate Possible(c: Conn, e: Event) {
    e.CanRead? && c.open && c.inRead ==> RecvWithin(c, e.recv)
  }

  /** Server bytes are read before the connection is known to be up. */
  predicate ReadsEarly(c: Conn, e: Event) {
    e.CanRead? && e.recv.Data? && c.open && c.inRead && c.status == Connecting
  }

  lemma StepDown(env: Env, c: Conn, e: Event, strict: bool)
    requires Ready(c) && Down(c, strict) && Possible(c, e) && (strict ==> !ReadsEarly(c, e))
    ensures Down(Step(env, c, e), strict)
  {
    hide Numbered, Proper, Forward, Readable, Writable, CloseConn, ItemsOk, Unsent;
    ProperDelivers(c);
    OpenIsNotNew(c, strict);
    match e
    case Client(seg, syn) => ForwardDown(env, c, seg, syn, strict);
    case CanRead(recv, fail) => if c.open && c.inRead { ReadableDown(env, c, recv, fail, strict); }
    case CanWrite(sends, async, hello) => if c.open && c.inWrite { WritableDown(env, c, sends, async, hello, strict); }
    case Close(st) => CloseDown(env, c, st, strict);
  }

  lemma OpenIsNotNew(c: Conn, strict: bool)
    requires Ready(c) && Down(c, strict)
    ensures Numbered(c) && c.isTcp && (c.open ==> c.status == Connecting || c.status == Connected)
  {
  }

  /** A run of possible events. */
  predicate PossibleRun(env: Env, c: Conn, events: seq<Event>) {
    forall i :: 0 <= i < |events| ==> Possible(Run(env, c, events[..i]), events[i])
  }

  predicate ReadsEarlyIn(env: Env, c: Conn, events: seq<Event>) {
    exists i :: 0 <= i < |events| && ReadsEarly(Run(env, c, events[..i]), events[i])
  }

  /** In every run packets are numbered from 0x77EB77EB, SYN and FIN taking one number each; at most one FIN is sent,
      and no byte or RST follows it. If nothing was read before the connection was up, the SYN+ACK comes once and
      before every byte, and the bytes received are those recv() returned after the SOCKS5 handshake. */
  lemma {:induction false} RunIsDown(env: Env, mode: ProxyMode, events: seq<Event>)
    requires PossibleRun(env, NewConn(true, mode), events)
    ensures var c := Run(env, NewConn(true, mode), events);
            Down(c, !ReadsEarlyIn(env, NewConn(true, mode), events))
  {
    var c0 := NewConn(true, mode);
    if events == [] {
      NothingYet();
    } else {
      var n := |events| - 1;
      var before := events[..n];
      hide Numbered, Proper, Step, Possible;
      assert forall i :: 0 <= i < n ==> before[..i] == events[..i] && before[i] == events[i];
      RunIsDown(env, mode, before);
      RunIsReady(env, true, mode, before);
      var c := Run(env, c0, before);
      StepDown(env, c, events[n], !ReadsEarlyIn(env, c0, events));
    }
  }

  // ------------------------------------------------------------------ what the client sees

  lemma {:induction false} PrefixCounts(log: seq<Packet>, i: nat)
    requires i < |log|
    ensures SynN(log[..i]) <= SynN(log)
    ensures Bytes(log[..i]) + log[i].payload <= Bytes(log)
    decreases |log|
  {
    var t := log[..|log| - 1];
    assert log == t + [log[|log| - 1]];
    if i < |t| {
      assert t[..i] == log[..i];
      PrefixCounts(t, i);
    } else {
      assert log[..i] == t;
    }
  }

  /** The k-th relayed server byte, counting from 0, is received at sequence number 0x77EB77EB + 1 + k (mod 2^32). */
  lemma ByteNumber(c: Conn, i: nat, j: nat)
    requires Numbered(c) && Proper(c) && i < |c.log| && j < |c.log[i].payload|
    ensures var k := |Bytes(c.log[..i])| + j;
            && Wrap32(c.log[i].seqNo + j) == Wrap32(ISS + 1 + k)
            && c.handshake + k < |c.fromServer| && c.log[i].payload[j] == c.fromServer[c.handshake + k]
  {
    PrefixCounts(c.log, i);
    assert PacketOk(c.log, i);
    hide LogOk, PacketOk, SynN, FinN, Bytes;
    var b, p := Bytes(c.log[..i]), c.log[i].payload;
    WrapAdds(ISS + SynN(c.log[..i]) + |b| + FinN(c.log[..i]), j);
    assert (b + p)[|b| + j] == p[j];
    assert c.fromServer[c.handshake..][|b| + j] == p[j];
  }

  // ------------------------------------------------------------------ reading too early

  /** Bytes of a handshake that is not done leave the log and the status alone, or close the connection. */
  predicate Silent(c: Conn, c1: Conn) {
    && c1.mode == c.mode && c1.fromServer == c.fromServer && c1.handshake == c.handshake
    && (if Dead(c1.status) then Proper(c1) && c1.s5 != Established
        else c1.status == c.status && c1.log == c.log && c1.sends == c.sends)
  }

  lemma CloseSilent(env: Env, c: Conn, st: Status)
    requires Numbered(c) && c.isTcp && Delivered(c) && c.s5 != Established
    ensures Silent(c, CloseConn(env, c, st))
  {
    hide Numbered, SynN, Bytes, DataAfterSyn, Proper, Delivered;
    CloseDown(env, c, st, true);
    CloseKeepsRead(env, c, st);
  }

  lemma CloseKeepsRead(env: Env, c: Conn, st: Status)
    ensures var c1 := CloseConn(env, c, st);
            c1.mode == c.mode && c1.s5 == c.s5 && c1.fromServer == c.fromServer && c1.handshake == c.handshake
  {
  }

  lemma RequestSilent(env: Env, c: Conn, request: bytes, next: Socks5Status, fail: Option<SockError>)
    requires Numbered(c) && c.isTcp && Delivered(c) && c.s5 != Established && next != Established && !Dead(c.status)
    ensures Silent(c, SendRequest(env, c, request, next, fail).c) && SendRequest(env, c, request, next, fail).c.s5 != Established
  {
    hide Numbered, SynN, Bytes, DataAfterSyn, Proper, Delivered, CloseConn;
    if fail.Some? {
      CloseSilent(env, c, StatusOf(fail.value));
      CloseKeepsRead(env, c, StatusOf(fail.value));
    }
  }

  lemma SkipSilent(env: Env, c: Conn, d: bytes)
    requires Numbered(c) && c.isTcp && Delivered(c) && c.s5 != Established && !Dead(c.status)
    ensures var Outcome(c1, rv) := SkipBound(env, c, d); Silent(c, c1) && (c1.s5 == Established ==> rv == 0)
  {
    hide Numbered, SynN, Bytes, DataAfterSyn, Proper, Delivered, CloseConn;
    CloseSilent(env, c, Socks5Error);
    CloseKeepsRead(env, c, Socks5Error);
  }

  lemma ConnectReplySilent(env: Env, c: Conn, d: bytes)
    requires Numbered(c) && c.isTcp && Delivered(c) && c.s5 != Established && !Dead(c.status)
    ensures var Outcome(c1, rv) := ConnectReply(env, c, d); Silent(c, c1) && (c1.s5 == Established ==> rv == 0)
  {
    hide Numbered, Delivered, Silent, CloseConn, SkipBound;
    CloseSilent(env, c, Socks5Error);
    CloseSilent(env, c, Unreachable);
    CloseSilent(env, c, SocketError);
    CloseKeepsRead(env, c, Socks5Error);
    CloseKeepsRead(env, c, Unreachable);
    CloseKeepsRead(env, c, SocketError);
    if |d| >= 4 {
      var c1 := c.(skip := if d[3] == 1 then 6 else 18, s5 := SkipBnd);
      SkippingSilent(c, c1);
      SkipSilent(env, c1, d[4..]);
      SilentChain(c, c1, SkipBound(env, c1, d[4..]).c);
    }
  }

  lemma SkippingSilent(c: Conn, c1: Conn)
    requires Numbered(c) && Delivered(c) && !Dead(c.status) && c1 == c.(skip := c1.skip, s5 := c1.s5)
    ensures Numbered(c1) && Delivered(c1) && Silent(c, c1)
  {
    hide SynN, FinN, Bytes, DataAfterSyn, LogOk, SeqAfter;
  }

  lemma SilentChain(c: Conn, c1: Conn, c2: Conn)
    requires Silent(c, c1) && Silent(c1, c2) && !Dead(c1.status)
    ensures Silent(c, c2)
  {
    hide Proper;
  }

  lemma Socks5Silent(env: Env, c: Conn, d: bytes, fail: Option<SockError>)
    requires Numbered(c) && c.isTcp && Delivered(c) && c.s5 != Established && !Dead(c.status)
    ensures var Outcome(c1, rv) := Socks5Reply(env, c, d, fail); Silent(c, c1) && (c1.s5 == Established ==> rv == 0)
  {
    hide Numbered, Delivered, Proper, Silent, CloseConn, SkipBound, ConnectReply, SendRequest, ConnectRequest, AuthRequest;
    CloseSilent(env, c, Socks5Error);
    CloseKeepsRead(env, c, Socks5Error);
    SkipSilent(env, c, d);
    ConnectReplySilent(env, c, d);
    RequestSilent(env, c, ConnectRequest(env), Requested, fail);
    if env.userPass.Some? {
      RequestSilent(env, c, AuthRequest(env.userPass.value.0, env.userPass.value.1), Auth, fail);
    }
  }

  /** Reading keeps the order and the numbering when the connection is known to be up, or the client takes no packet and
      the connection is closed; before that a byte is sent with no SYN+ACK before it, and a SOCKS5 handshake that becomes
      established has its SYN+ACK sent while the connection is not up. What establishes it is in
      TcpSocks5.EarlyReadMisnumbers. */
  lemma EarlyReadCases(env: Env, c: Conn, d: bytes, last: bool, fail: Option<SockError>)
    requires Numbered(c) && Proper(c) && c.isTcp && c.open && c.inRead && (c.status == Connecting || c.status == Connected)
    requires RecvWithin(c, Data(d, last))
    ensures var c1 := Step(env, c, CanRead(Data(d, last), fail));
            Proper(c1) <==> c.status == Connected || !env.accepts(c.sends) || (c.Socks5InProgress() && c1.s5 != Established)
    ensures c.status == Connecting && !c.Socks5InProgress() && env.accepts(c.sends) ==>
              var c1 := Step(env, c, CanRead(Data(d, last), fail));
              c1.log == c.log + [Packet(if last then PushAck else Ack, SeqAfter(c.log), c.clientSeq, d, true, |c.given|, true)] && SynN(c1.log) == 0
  {
    hide Numbered, Proper, Readable, Relay, RecvWithin, Bytes, SeqAfter, Socks5Reply;
    if c.status == Connected {
      ReadableDown(env, c, Data(d, last), fail, true);
    } else if c.Socks5InProgress() {
      EarlyHandshake(env, c, d, last, fail);
    } else if env.accepts(c.sends) {
      EarlyByte(env, c, d, last, fail);
    } else {
      EarlyRefused(env, c, d, last, fail);
    }
  }

  lemma EarlyRefused(env: Env, c: Conn, d: bytes, last: bool, fail: Option<SockError>)
    requires Numbered(c) && Proper(c) && c.isTcp && c.open && c.status == Connecting && !c.Socks5InProgress()
    requires RecvWithin(c, Data(d, last)) && !env.accepts(c.sends)
    ensures Proper(Readable(env, c, Data(d, last), fail).c)
  {
    var c0 := c.(fromServer := c.fromServer + d);
    hide SynN, FinN, Bytes, LogOk, CloseConn, SeqAfter, DataAfterSyn;
    RefusedDown(c0, true);
    hide Refused;
    assert Readable(env, c, Data(d, last), fail).c == Refused(c0);
  }

  lemma EarlyByte(env: Env, c: Conn, d: bytes, last: bool, fail: Option<SockError>)
    requires Numbered(c) && Proper(c) && c.isTcp && c.open && c.inRead && c.status == Connecting && !c.Socks5InProgress()
    requires RecvWithin(c, Data(d, last)) && env.accepts(c.sends)
    ensures var c1 := Readable(env, c, Data(d, last), fail).c;
            && !Proper(c1) && SynN(c1.log) == 0
            && c1.log == c.log + [Packet(if last then PushAck else Ack, SeqAfter(c.log), c.clientSeq, d, true, |c.given|, true)]
  {
    var c0 := c.(fromServer := c.fromServer + d);
    var p := Reply(c0, if last then PushAck else Ack, d);
    AppendCounts(c.log, p);
    hide SynN, FinN, Bytes, LogOk, CloseConn, SeqAfter;
    var x := Relay(env, c0, d, last).c;
    assert SendToClient(env, c0, p) == Outcome(Accepted(c0, p), 0);
    assert x.log == c.log + [p] && x == Readable(env, c, Data(d, last), fail).c;
    assert x.log[..|c.log|] == c.log && x.log[|c.log|].payload != [];
  }

  lemma EarlyHandshake(env: Env, c: Conn, d: bytes, last: bool, fail: Option<SockError>)
    requires Numbered(c) && Proper(c) && c.isTcp && c.open && c.inRead && c.status == Connecting && c.Socks5InProgress()
    requires RecvWithin(c, Data(d, last))
    ensures var c1 := Readable(env, c, Data(d, last), fail).c; Proper(c1) <==> !env.accepts(c.sends) || c1.s5 != Established
  {
    var c1 := c.(fromServer := c.fromServer + d, handshake := c.handshake + |d|);
    var Outcome(c2, rv) := Socks5Reply(env, c1, d, fail);
    HandshakeCounted(c, c1, d);
    ReadingHandshake(env, c, d, last, fail);
    hide *;
    NotDead(c1);
    Socks5Silent(env, c1, d, fail);
    if c2.s5 == Established {
      SynAckEarly(env, c1, c2);
    } else {
      SilentIsProper(c1, c2);
    }
  }

  lemma NotDead(c: Conn)
    ensures c.status == Connecting && c.Socks5InProgress() ==> !Dead(c.status) && c.s5 != Established
  {
  }

  lemma ReadingHandshake(env: Env, c: Conn, d: bytes, last: bool, fail: Option<SockError>)
    requires c.Socks5InProgress()
    ensures var c1 := c.(fromServer := c.fromServer + d, handshake := c.handshake + |d|);
            var Outcome(c2, rv) := Socks5Reply(env, c1, d, fail);
            Readable(env, c, Data(d, last), fail).c == if rv == 0 && c2.s5 == Established then SendSynAck(env, c2).c else c2
    ensures var c1 := c.(fromServer := c.fromServer + d, handshake := c.handshake + |d|);
            c1.Socks5InProgress() && c1.status == c.status && c1.isTcp == c.isTcp && c1.sends == c.sends
  {
    hide Socks5Reply, SendSynAck;
  }

  lemma HandshakeCounted(c: Conn, c1: Conn, d: bytes)
    requires Numbered(c) && Proper(c) && c.status == Connecting && c.Socks5InProgress()
    requires c1 == c.(fromServer := c.fromServer + d, handshake := c.handshake + |d|)
    ensures Numbered(c1) && Proper(c1) && Delivered(c1)
  {
    hide SynN, FinN, Bytes, DataAfterSyn, LogOk, SeqAfter;
    assert c1.fromServer[c1.handshake..] == [] && c.fromServer[c.handshake..] == [];
  }

  lemma SilentIsProper(c: Conn, c1: Conn)
    requires Proper(c) && c.status == Connecting && Silent(c, c1)
    ensures Proper(c1)
  {
    hide SynN, Bytes, DataAfterSyn;
  }

  lemma SynAckEarly(env: Env, c: Conn, c1: Conn)
    requires Proper(c) && c.status == Connecting && Silent(c, c1) && c1.s5 == Established
    ensures var c2 := SendSynAck(env, c1).c; (Proper(c2) <==> !env.accepts(c.sends)) && c2.s5 == Established
  {
    var p := Reply(c1, SynAck, []);
    AppendCounts(c1.log, p);
    hide SynN, Bytes, DataAfterSyn;
    if env.accepts(c.sends) {
      assert SendToClient(env, c1, p) == Outcome(Accepted(c1, p), 0);
    } else {
      assert SendToClient(env, c1, p) == Outcome(Refused(c1), -1);
    }
  }
}
