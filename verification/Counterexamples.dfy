/** Runs that show what the exact conditions elsewhere are needed for. */
module Counterexamples {
  import opened Words
  import opened Tuples
  import opened TcpProxy
  import D = TcpDownstream
  import O = TcpOptions
  import F = TcpFlow
  import Rd = TcpReadiness
  import S = TcpSocks5
  import U = TcpUpstream
  import A = TcpAnswers
  import W = TcpWire
  import H = HttpReassembly
  import HC = HttpChunked
  import Reg = ConnectionsRegister
  import C = Checksum
  import P = Packet
  import R = RecordLifetime
  import T = ConnTable
  import N = DnsQueries

  /** A client that takes every packet, no proxy credentials. */
  function AnyEnv(): Env {
    Env(n => true, None, 4, [1, 2, 3, 4], [0, 80], 1460)
  }

  /** send() takes one byte at a time. */
  function OneByte(): nat -> SendResult {
    n => Sent(1)
  }

  function Syn(win: u16): Segment {
    Segment(0, 0, win, false, false, false, false, false, [], [])
  }

  function DataSegment(seqNo: u32, ackNo: u32, win: u16, payload: bytes): Segment {
    Segment(seqNo, ackNo, win, false, false, true, true, false, [], payload)
  }

  const AT_ONCE := SynResult(true, Done, None)
  const LATER := SynResult(true, InProgress, None)

  /** After a SYN answered at once: established, nothing exchanged but the SYN+ACK. */
  lemma AfterSyn(win: u16, r: SynResult)
    requires r == AT_ONCE || r == LATER
    ensures var c := Step(AnyEnv(), NewConn(true, NoProxy), Client(Syn(win), r));
            && c.open && c.inRead && c.window == Shl(win, 0) && c.mss == 1460 && c.scale == 0 && c.mode == NoProxy && c.isTcp
            && c.clientSeq == 1 && c.isn == 0 && c.queue == [] && c.qsize == 0 && c.given == [] && c.fromServer == []
            && !c.finAckSent && !c.clientClosed
            && (if r == AT_ONCE then
                  c.status == Connected && c.zdtunSeq == ISS + 1 && c.log == [Packet(SynAck, ISS, 1, [], true, 0, true)]
                else c.status == Connecting && c.inWrite && c.zdtunSeq == ISS && c.log == [])
  {
    hide Shl;
  }

  /** A byte sent, written, and retransmitted: it is queued a second time. */
  lemma RetransmissionQueuedTwice()
    ensures var seg := DataSegment(1, 1, 1000, [7]);
            var events := [Client(Syn(1000), AT_ONCE), Client(seg, AT_ONCE), CanWrite(OneByte(), SockOptFailed, None),
                           Client(seg, AT_ONCE)];
            var c := Run(AnyEnv(), NewConn(true, NoProxy), events);
            c.open && U.Taken(c) == [7, 7]
  {
    var env, c0, seg := AnyEnv(), NewConn(true, NoProxy), DataSegment(1, 1, 1000, [7]);
    var e1, e2, e3 := Client(Syn(1000), AT_ONCE), Client(seg, AT_ONCE), CanWrite(OneByte(), SockOptFailed, None);
    FourSteps(env, c0, e1, e2, e3, e2);
    AfterSyn(1000, AT_ONCE);
    hide Shl, WindowAfterAck, Run;
    var c1 := Step(env, c0, e1);
    DataQueued(c1, seg);
    var c2 := Step(env, c1, e2);
    ByteWritten(c2);
    var c3 := Step(env, c2, e3);
    DataQueued(c3, seg);
  }

  /** A byte that is queued when the FIN comes: the ACK of the FIN has the number of the FIN itself, 2, and not the one after. */
  lemma FinAcknowledgedLow()
    ensures var fin := Segment(2, 1, 1000, true, false, false, true, false, [], []);
            var events := [Client(Syn(1000), AT_ONCE), Client(DataSegment(1, 1, 1000, [7]), AT_ONCE), Client(fin, AT_ONCE)];
            var c := Run(AnyEnv(), NewConn(true, NoProxy), events);
            c.open && c.clientClosed && c.log != [] && c.log[|c.log| - 1].ackNo == 2
  {
    var env, c0, seg := AnyEnv(), NewConn(true, NoProxy), DataSegment(1, 1, 1000, [7]);
    var fin := Segment(2, 1, 1000, true, false, false, true, false, [], []);
    ThreeSteps(env, c0, Client(Syn(1000), AT_ONCE), Client(seg, AT_ONCE), Client(fin, AT_ONCE));
    AfterSyn(1000, AT_ONCE);
    hide Shl, WindowAfterAck, Run, Step;
    var c1 := Step(env, c0, Client(Syn(1000), AT_ONCE));
    DataQueued(c1, seg);
    hide *;
    FinFits(env, Step(env, c1, Client(seg, AT_ONCE)), fin);
  }

  lemma FinFits(env: Env, c: Conn, fin: Segment)
    requires env == AnyEnv() && c.isTcp && c.status == Connected && c.mode == NoProxy && c.open && c.clientSeq == 1 && c.qsize == 1
    requires fin == Segment(2, 1, 1000, true, false, false, true, false, [], [])
    ensures var c1 := Step(env, c, Client(fin, AT_ONCE));
            c1.open && c1.clientClosed && c1.log != [] && c1.log[|c1.log| - 1].ackNo == 2
  {
    hide Step;
    A.FinAnswered(env, c, fin, AT_ONCE);
  }

  lemma FourSteps(env: Env, c: Conn, e1: Event, e2: Event, e3: Event, e4: Event)
    ensures Run(env, c, [e1, e2, e3, e4]) == Step(env, Step(env, Step(env, Step(env, c, e1), e2), e3), e4)
  {
    hide Step;
    RunStep(env, c, [e1, e2, e3, e4]);
    assert [e1, e2, e3, e4][..3] == [e1, e2, e3];
    RunStep(env, c, [e1, e2, e3]);
    assert [e1, e2, e3][..2] == [e1, e2];
    RunStep(env, c, [e1, e2]);
    assert [e1, e2][..1] == [e1];
    RunStep(env, c, [e1]);
    assert [e1][..0] == [];
  }

  /** A segment in sequence, or with the look of a keep-alive, is queued. */
  lemma DataQueued(c: Conn, seg: Segment)
    requires c.status == Connected && c.open && c.mode == NoProxy && c.queue == [] && c.qsize == 0 && c.isTcp
    requires seg == DataSegment(1, 1, 1000, [7]) && (c.clientSeq == 1 || c.clientSeq == 2)
    ensures var c1 := Step(AnyEnv(), c, Client(seg, AT_ONCE));
            && c1.status == Connected && c1.open && c1.mode == NoProxy && c1.queue == [Item([7], 0, true)] && c1.qsize == 1
            && c1.inWrite && c1.given == c.given && c1.clientSeq == c.clientSeq && c1.isTcp
            && U.Taken(c1) == c.given + [7]
  {
    OneItem();
    AckTakenFirst(c, seg);
    hide WindowAfterAck, CloseConn, TakeAck, IsKeepAlive, Unsent;
  }

  lemma OneItem()
    ensures Unsent([Item([7], 0, true)]) == [7]
  {
    assert Unsent([Item([7], 0, true)]) == [7] + Unsent([]) == [7];
  }

  lemma AckTakenFirst(c: Conn, seg: Segment)
    requires c.status == Connected && c.open && c.mode == NoProxy && c.queue == [] && c.qsize == 0 && c.isTcp
    requires seg == DataSegment(1, 1, 1000, [7]) && (c.clientSeq == 1 || c.clientSeq == 2)
    ensures InSequence(c, seg)
    ensures var Outcome(c1, rv) := TakeAck(AnyEnv(), c, seg);
            && rv == 0 && c1.status == Connected && c1.open && c1.mode == NoProxy && c1.queue == [] && c1.qsize == 0 && c1.isTcp
            && c1.given == c.given && c1.clientSeq == c.clientSeq
  {
    hide WindowAfterAck, CloseConn;
  }

  lemma ByteWritten(c: Conn)
    requires c.status == Connected && c.open && c.inWrite && c.mode == NoProxy && c.isTcp
    requires c.queue == [Item([7], 0, true)] && c.qsize == 1 && c.given == [] && c.clientSeq == 1
    ensures var c1 := Step(AnyEnv(), c, CanWrite(OneByte(), SockOptFailed, None));
            && c1.status == Connected && c1.open && c1.mode == NoProxy && c1.queue == [] && c1.qsize == 0
            && c1.given == [7] && c1.clientSeq == 2 && c1.isTcp
  {
    hide CloseConn;
    assert Drain([], OneByte(), 1) == Drained([], [], None);
    assert Drain(c.queue, OneByte(), 0) == Drained([], [7], None);
  }

  /** A byte read while connecting reaches the client with no SYN+ACK before it. */
  lemma ByteBeforeSynAck()
    ensures var c := Run(AnyEnv(), NewConn(true, NoProxy), [Client(Syn(1000), LATER), CanRead(Data([9], true), None)]);
            c.status == Connecting && c.log == [Packet(PushAck, ISS, 1, [9], true, 0, true)]
  {
    var env, c0 := AnyEnv(), NewConn(true, NoProxy);
    var e1, e2 := Client(Syn(1000), LATER), CanRead(Data([9], true), None);
    AfterSyn(1000, LATER);
    PlainWindow(1000);
    hide Run, Step, NewConn, Shl;
    TwoSteps(env, c0, e1, e2);
    EarlyByte(Step(env, c0, e1));
  }

  lemma PlainWindow(win: u16)
    ensures Shl(win, 0) == win
  {
    assert Pow2(0) == 1;
  }

  lemma EarlyByte(c: Conn)
    requires c.status == Connecting && c.open && c.inRead && c.mode == NoProxy && c.isTcp && c.window == 1000
    requires c.zdtunSeq == ISS && c.clientSeq == 1 && c.given == [] && c.log == []
    ensures var c1 := Step(AnyEnv(), c, CanRead(Data([9], true), None));
            c1.status == Connecting && c1.log == [Packet(PushAck, ISS, 1, [9], true, 0, true)]
  {
    hide CloseConn;
  }

  lemma TwoSteps(env: Env, c: Conn, e1: Event, e2: Event)
    ensures Run(env, c, [e1, e2]) == Step(env, Step(env, c, e1), e2)
  {
    hide Step;
    RunStep(env, c, [e1, e2]);
    assert [e1, e2][..1] == [e1];
    RunStep(env, c, [e1]);
    assert [e1][..0] == [];
  }

  /** An ACK that shrinks the window to the byte in flight: the socket stays readable, and recv() is asked for nothing. */
  lemma NothingToAskFor()
    ensures var ack := DataSegment(1, ISS + 1, 1, []);
            var events := [Client(Syn(1000), AT_ONCE), CanRead(Data([9], true), None), Client(ack, AT_ONCE)];
            var c := Run(AnyEnv(), NewConn(true, NoProxy), events);
            c.status == Connected && c.open && c.inRead && ToRecv(c) == 0
  {
    var env, c0, ack := AnyEnv(), NewConn(true, NoProxy), DataSegment(1, ISS + 1, 1, []);
    var e1, e2, e3 := Client(Syn(1000), AT_ONCE), CanRead(Data([9], true), None), Client(ack, AT_ONCE);
    AfterSyn(1000, AT_ONCE);
    PlainWindow(1000);
    hide Run, Step, NewConn, Shl;
    ThreeSteps(env, c0, e1, e2, e3);
    var c1 := Step(env, c0, e1);
    ByteRelayed(c1);
    WindowGone(Step(env, c1, e2));
  }

  lemma ThreeSteps(env: Env, c: Conn, e1: Event, e2: Event, e3: Event)
    ensures Run(env, c, [e1, e2, e3]) == Step(env, Step(env, Step(env, c, e1), e2), e3)
  {
    hide Step;
    RunStep(env, c, [e1, e2, e3]);
    assert [e1, e2, e3][..2] == [e1, e2];
    TwoSteps(env, c, e1, e2);
  }

  lemma ByteRelayed(c: Conn)
    requires c.status == Connected && c.open && c.inRead && c.mode == NoProxy && c.isTcp && c.window == 1000
    requires c.zdtunSeq == ISS + 1
    ensures var c1 := Step(AnyEnv(), c, CanRead(Data([9], true), None));
            && c1.status == Connected && c1.open && c1.inRead && c1.mode == NoProxy && c1.isTcp && c1.window == 999
            && c1.zdtunSeq == ISS + 2 && c1.clientSeq == c.clientSeq && c1.qsize == c.qsize && c1.mss == c.mss && c1.scale == c.scale
  {
    hide CloseConn;
  }

  lemma WindowGone(c: Conn)
    requires c.status == Connected && c.open && c.inRead && c.mode == NoProxy && c.zdtunSeq == ISS + 2 && c.scale == 0
    requires c.clientSeq == 1 && c.qsize == 0
    ensures var c1 := Step(AnyEnv(), c, Client(DataSegment(1, ISS + 1, 1, []), AT_ONCE));
            c1.status == Connected && c1.open && c1.inRead && ToRecv(c1) == 0
  {
    hide CloseConn;
    assert Shl(1, 0) == 1 by { assert Pow2(0) == 1; }
    assert WindowAfterAck(c, DataSegment(1, ISS + 1, 1, [])) == 0;
  }

  // ------------------------------------------------------------------ a window that shrinks below the bytes sent

  /** Two bytes fill the window offered; an ACK that acknowledges none of them and offers one, stale or shrinking, makes the
      window register wrap around: the socket is read again, and a third byte goes past the edge of one. */
  lemma WindowWraps()
    ensures var env, c0, ack := AnyEnv(), NewConn(true, NoProxy), DataSegment(1, ISS + 1, 1, []);
            var events := [Client(Syn(2), AT_ONCE), CanRead(Data([9, 9], true), None), Client(ack, AT_ONCE)];
            var more := events + [CanRead(Data([8], true), None)];
            var c, c1 := Run(env, c0, events), Run(env, c0, more);
            && c.window == 0xFFFF_FFFF && c.open && c.inRead && ToRecv(c) == 1460
            && F.SentBytes(c) == 2 && F.Edge(env, c0, events) == 1
            && F.SentBytes(c1) == 3 && F.Edge(env, c0, more) == 1
  {
    var env, c0, ack := AnyEnv(), NewConn(true, NoProxy), DataSegment(1, ISS + 1, 1, []);
    var e1, e2, e3, e4 := Client(Syn(2), AT_ONCE), CanRead(Data([9, 9], true), None), Client(ack, AT_ONCE), CanRead(Data([8], true), None);
    var events := [e1, e2, e3];
    AfterSyn(2, AT_ONCE);
    PlainWindow(2);
    PlainWindow(1);
    hide Run, Step, NewConn, Shl, F.Edge;
    ThreeSteps(env, c0, e1, e2, e3);
    assert events + [e4] == [e1, e2, e3, e4];
    FourSteps(env, c0, e1, e2, e3, e4);
    var c1 := Step(env, c0, e1);
    WindowFilled(c1);
    var c2 := Step(env, c1, e2);
    StaleAck(c2);
    var c3 := Step(env, c2, e3);
    OneMore(c3);
    assert events[..2] == [e1, e2];
    TwoSteps(env, c0, e1, e2);
    F.EdgeStep(env, c0, events);
    assert (events + [e4])[..3] == events;
    F.EdgeStep(env, c0, events + [e4]);
  }

  lemma WindowFilled(c: Conn)
    requires c.status == Connected && c.open && c.inRead && c.mode == NoProxy && c.isTcp && c.window == 2 && c.mss == 1460
    requires c.zdtunSeq == ISS + 1 && c.clientSeq == 1 && c.qsize == 0 && c.scale == 0 && c.log == [Packet(SynAck, ISS, 1, [], true, 0, true)]
    ensures var c1 := Step(AnyEnv(), c, CanRead(Data([9, 9], true), None));
            && c1.status == Connected && c1.open && !c1.inRead && c1.mode == NoProxy && c1.isTcp && c1.window == 0 && c1.mss == 1460
            && c1.zdtunSeq == ISS + 3 && c1.clientSeq == 1 && c1.qsize == 0 && c1.scale == 0 && F.SentBytes(c1) == 2
  {
    hide CloseConn;
    var p := Packet(PushAck, ISS + 1, 1, [9, 9], true, |c.given|, true);
    D.AppendCounts(c.log, p);
    D.AppendCounts([], c.log[0]);
    assert [] + [c.log[0]] == c.log;
    var c0 := c.(fromServer := c.fromServer + [9, 9]);
    assert SendToClient(AnyEnv(), c0, p) == Outcome(Accepted(c0, p), 0);
  }

  lemma StaleAck(c: Conn)
    requires c.status == Connected && c.open && !c.inRead && c.mode == NoProxy && c.zdtunSeq == ISS + 3 && c.scale == 0
    requires c.clientSeq == 1 && c.qsize == 0 && c.mss == 1460 && c.window == 0 && F.SentBytes(c) == 2
    ensures var ack := DataSegment(1, ISS + 1, 1, []);
            var c1 := Step(AnyEnv(), c, Client(ack, AT_ONCE));
            && c1 == c.(window := 0xFFFF_FFFF, inRead := true)
            && F.IsAck(c, Client(ack, AT_ONCE)) && F.OfferedEdge(c, ack) == 1
  {
    PlainWindow(1);
    hide D.Bytes, Shl, Pow2;
    var ack := DataSegment(1, ISS + 1, 1, []);
    assert WindowAfterAck(c, ack) == 0xFFFF_FFFF;
    assert !IsKeepAlive(c, ack) && InSequence(c, ack);
    F.AckForwarded(AnyEnv(), c, ack, AT_ONCE);
    hide Forward;
  }

  lemma OneMore(c: Conn)
    requires c.status == Connected && c.open && c.inRead && c.mode == NoProxy && c.window == 0xFFFF_FFFF && F.SentBytes(c) == 2
    ensures F.SentBytes(Step(AnyEnv(), c, CanRead(Data([8], true), None))) == 3
  {
    hide CloseConn, D.Bytes;
    var c0 := c.(fromServer := c.fromServer + [8]);
    var p := Reply(c0, PushAck, [8]);
    D.AppendCounts(c.log, p);
    assert SendToClient(AnyEnv(), c0, p) == Outcome(Accepted(c0, p), 0);
  }

  /** A SYN offers a window of 1 and asks for a scale of 1: the first window is taken to be 2. */
  lemma FirstWindowDoubled()
    ensures var seg := Segment(0, 0, 1, false, false, false, false, false, [3, 3, 1], []);
            var c := Run(AnyEnv(), NewConn(true, NoProxy), [Client(seg, LATER)]);
            c.open && c.window == 2
  {
    var env, c0 := AnyEnv(), NewConn(true, NoProxy);
    var seg := Segment(0, 0, 1, false, false, false, false, false, [3, 3, 1], []);
    var o := O.TcpOption(3, [1]);
    assert o.Wire() + [] == [3, 3, 1];
    O.ParseOption(o, [], O.Parsed(1460, 0));
    assert Pow2(1) == 2 * Pow2(0) == 2;
    RunStep(env, c0, [Client(seg, LATER)]);
    assert [Client(seg, LATER)][..0] == [] && Run(env, c0, []) == c0;
    hide Run, O.Parse, Pow2;
  }

  lemma WidestMss()
    ensures O.Parse([2, 4, 255, 255], O.Parsed(1460, 0)) == O.Parsed(0xFFFF, 0)
  {
    var o := O.TcpOption(2, [255, 255]);
    assert o.Wire() + [] == [2, 4, 255, 255];
    O.ParseOption(o, [], O.Parsed(1460, 0));
    assert O.Parse([], O.Parsed(0xFFFF, 0)) == O.Parsed(0xFFFF, 0);
  }

  /** A SYN announces an MSS of 65535: the 65535 bytes that one recv() then returns leave no room for any header. */
  lemma MssTooLarge(t: Tuple, mss: u16, scale: byte)
    ensures var env, c0, events := AnyEnv(), NewConn(true, NoProxy), F.LongestRead([2, 4, 255, 255], 0xFFFF);
            D.PossibleRun(env, c0, events) && !W.Fits(t, Run(env, c0, events).log, mss, scale)
  {
    var env, c0, events := AnyEnv(), NewConn(true, NoProxy), F.LongestRead([2, 4, 255, 255], 0xFFFF);
    assert env.defaultMss == 1460;
    WidestMss();
    hide O.Parse, F.LongestRead, F.Longest, Run, F.SynSays, D.PossibleRun, W.Fits;
    F.ReadsMss(env, [2, 4, 255, 255]);
    hide *;
    D.RunIsDown(env, NoProxy, events);
    W.RunLogOk(Run(env, c0, events), !D.ReadsEarlyIn(env, c0, events));
    W.FitsIfShort(t, Run(env, c0, events).log, mss, scale);
  }

  // ------------------------------------------------------------------ data after the server closed

  /** The server closes, the client sends a byte: it is acknowledged, and neither sent nor queued. */
  lemma DroppedAfterClose()
    ensures var seg := DataSegment(1, ISS + 2, 1000, [7]);
            var c := Run(AnyEnv(), NewConn(true, NoProxy), [Client(Syn(1000), AT_ONCE), CanRead(Eof, None), Client(seg, AT_ONCE)]);
            && c.given == [] && c.queue == []
            && c.log != [] && c.log[|c.log| - 1] == Packet(Ack, ISS + 2, 2, [], false, 0, true)
  {
    var env, c0, seg := AnyEnv(), NewConn(true, NoProxy), DataSegment(1, ISS + 2, 1000, [7]);
    var e1, e2, e3 := Client(Syn(1000), AT_ONCE), CanRead(Eof, None), Client(seg, AT_ONCE);
    AfterSyn(1000, AT_ONCE);
    hide Run, Step, NewConn, Shl;
    ThreeSteps(env, c0, e1, e2, e3);
    var c1 := Step(env, c0, e1);
    HalfClosed(c1);
    Unheard(Step(env, c1, e2), seg);
  }

  lemma HalfClosed(c: Conn)
    requires c.status == Connected && c.open && c.inRead && !c.finAckSent && !c.clientClosed && c.zdtunSeq == ISS + 1
    ensures var c1 := Step(AnyEnv(), c, CanRead(Eof, None));
            && c1 == c.(open := false, inRead := false, inWrite := false, finAckSent := true, zdtunSeq := ISS + 2, sends := c1.sends,
                        log := c1.log)
  {
    hide CloseConn;
    var p := Reply(c, FinAck, []);
    assert SendToClient(AnyEnv(), c, p) == Outcome(Accepted(c, p), 0);
  }

  lemma Unheard(c: Conn, seg: Segment)
    requires c.status == Connected && !c.open && c.mode == NoProxy && c.isn == 0 && c.given == [] && c.queue == [] && c.qsize == 0
    requires c.clientSeq == 1 && c.zdtunSeq == ISS + 2 && seg == DataSegment(1, ISS + 2, 1000, [7])
    ensures var c1 := Step(AnyEnv(), c, Client(seg, AT_ONCE));
            && c1.given == [] && c1.queue == []
            && c1.log != [] && c1.log[|c1.log| - 1] == Packet(Ack, ISS + 2, 2, [], false, 0, true)
  {
    assert InSequence(c, seg);
    U.AcknowledgedIsGiven(AnyEnv(), c, seg, AT_ONCE);
    hide Forward;
  }

  // ------------------------------------------------------------------ SOCKS5

  /** A proxy that asks for nothing, or for the credentials given. */
  function ProxyEnv(userPass: Option<(bytes, bytes)>): Env {
    Env(n => true, userPass, 4, [1, 2, 3, 4], [0, 80], 1460)
  }

  lemma AfterProxySyn(userPass: Option<(bytes, bytes)>, r: SynResult)
    requires r == AT_ONCE || r == LATER
    ensures var c := Step(ProxyEnv(userPass), NewConn(true, Socks5), Client(Syn(1000), r));
            && c.open && c.inRead && c.mode == Socks5 && c.s5 == Hello && c.queue == [] && c.fromServer == [] && c.handshake == 0
            && (if r == AT_ONCE then c.status == Connected && c.requests == [HelloRequest(ProxyEnv(userPass))]
                else c.status == Connecting && c.inWrite && c.requests == [])
            && c.zdtunSeq == ISS && c.clientSeq == 1 && c.given == [] && c.log == []
  {
    hide Shl;
  }

  lemma Answer(c: Conn, userPass: Option<(bytes, bytes)>, how: byte)
    requires c.open && c.inRead && c.mode == Socks5 && c.s5 == Hello && how != 5 && (how == 0 || (how == 2 && userPass.Some?))
    ensures var env := ProxyEnv(userPass);
            var c1 := Step(env, c, CanRead(Data([5, how], false), None));
            var request := if how == 0 then ConnectRequest(env) else AuthRequest(userPass.value.0, userPass.value.1);
            c1 == c.(fromServer := c.fromServer + [5, how], handshake := c.handshake + 2, requests := c.requests + [request],
                     s5 := if how == 0 then Requested else Auth)
  {
    hide CloseConn, ConnectRequest, AuthRequest;
  }

  /** The first three bytes of a granting reply come alone: the connection is given up. */
  lemma ShortFirstPiece()
    ensures var reply: bytes := [5, 0, 0, 1, 0, 0, 0, 0, 0, 0];
            var events := [Client(Syn(1000), AT_ONCE), CanRead(Data([5, 0], false), None), CanRead(Data(reply[..3], false), None)];
            S.Grants(reply) && Run(ProxyEnv(None), NewConn(true, Socks5), events).status == Socks5Error
  {
    var env, c0 := ProxyEnv(None), NewConn(true, Socks5);
    var reply: bytes := [5, 0, 0, 1, 0, 0, 0, 0, 0, 0];
    var e1, e2, e3 := Client(Syn(1000), AT_ONCE), CanRead(Data([5, 0], false), None), CanRead(Data(reply[..3], false), None);
    AfterProxySyn(None, AT_ONCE);
    hide Run, Step, NewConn;
    ThreeSteps(env, c0, e1, e2, e3);
    var c1 := Step(env, c0, e1);
    Answer(c1, None, 0);
    ShortPiece(Step(env, c1, e2), reply);
  }

  lemma ShortPiece(c: Conn, reply: bytes)
    requires S.AwaitsReply(c) && reply == [5, 0, 0, 1, 0, 0, 0, 0, 0, 0]
    ensures S.Grants(reply) && Step(ProxyEnv(None), c, CanRead(Data(reply[..3], false), None)).status == Socks5Error
  {
    hide Step;
    S.FirstPieceNeedsHeader(ProxyEnv(None), c, reply, 3);
  }

  function LongName(): bytes {
    seq(256, i => 65)
  }

  /** A user name of 256 bytes is sent with a count of 0: the proxy cannot read the request. */
  lemma LongNameLost()
    ensures var userPass := Some((LongName(), [66]));
            var events := [Client(Syn(1000), AT_ONCE), CanRead(Data([5, 2], false), None)];
            var c := Run(ProxyEnv(userPass), NewConn(true, Socks5), events);
            c.status == Connected && |c.requests| == 2 && S.ReadAuth(c.requests[1]) == None
  {
    var userPass := Some((LongName(), [66]));
    var env, c0 := ProxyEnv(userPass), NewConn(true, Socks5);
    var e1, e2 := Client(Syn(1000), AT_ONCE), CanRead(Data([5, 2], false), None);
    AfterProxySyn(userPass, AT_ONCE);
    hide Run, Step, NewConn;
    TwoSteps(env, c0, e1, e2);
    Answer(Step(env, c0, e1), userPass, 2);
    LongRequest();
    hide LongName, AuthRequest, HelloRequest, S.ReadAuth;
  }

  lemma LongRequest()
    ensures S.ReadAuth(AuthRequest(LongName(), [66])) == None
  {
    var name := LongName();
    assert |name| == 256 && name[0] == 65;
    hide LongName;
    var r := AuthRequest(name, [66]);
    assert r == [1, 0] + name + [1] + [66];
    assert |r| == 260 && r[1] == 0 && r[2] == name[0] == 65;
  }

  /** The proxy's answer is read before the connection is known to be up: the request goes out before the greeting. */
  lemma RequestBeforeGreeting()
    ensures var env := ProxyEnv(None);
            var events := [Client(Syn(1000), LATER), CanRead(Data([5, 0], false), None), CanWrite(OneByte(), AsyncDone, None)];
            var c := Run(env, NewConn(true, Socks5), events);
            c.status == Connected && c.s5 == Hello && c.requests == [ConnectRequest(env), HelloRequest(env)]
  {
    var env, c0 := ProxyEnv(None), NewConn(true, Socks5);
    var e1, e2, e3 := Client(Syn(1000), LATER), CanRead(Data([5, 0], false), None), CanWrite(OneByte(), AsyncDone, None);
    AfterProxySyn(None, LATER);
    hide Run, Step, NewConn, ConnectRequest, HelloRequest;
    ThreeSteps(env, c0, e1, e2, e3);
    var c1 := Step(env, c0, e1);
    Answer(c1, None, 0);
    GreetedNow(Step(env, c1, e2));
  }

  lemma GreetedNow(c: Conn)
    requires c.open && c.inWrite && c.mode == Socks5 && c.queue == [] && c.requests == [ConnectRequest(ProxyEnv(None))]
    ensures var env := ProxyEnv(None);
            var c1 := Step(env, c, CanWrite(OneByte(), AsyncDone, None));
            c1.status == Connected && c1.s5 == Hello && c1.requests == [ConnectRequest(env), HelloRequest(env)]
  {
    hide CloseConn, ConnectRequest, HelloRequest, Flush;
  }

  /** Greeting and granting reply are both read before the connection is known to be up: the client has its SYN+ACK while
      the connection is still being made. */
  lemma SynAckWhileConnecting()
    ensures var env := ProxyEnv(None);
            var events := [Client(Syn(1000), LATER), CanRead(Data([5, 0], false), None),
                           CanRead(Data([5, 0, 0, 1, 0, 0, 0, 0, 0, 0], false), None)];
            var c := Run(env, NewConn(true, Socks5), events);
            c.status == Connecting && c.s5 == Established && c.log == [Packet(SynAck, ISS, 1, [], true, 0, true)]
  {
    var env, c0 := ProxyEnv(None), NewConn(true, Socks5);
    var e1, e2 := Client(Syn(1000), LATER), CanRead(Data([5, 0], false), None);
    var e3 := CanRead(Data([5, 0, 0, 1, 0, 0, 0, 0, 0, 0], false), None);
    AfterProxySyn(None, LATER);
    hide Run, Step, NewConn, ConnectRequest;
    ThreeSteps(env, c0, e1, e2, e3);
    var c1 := Step(env, c0, e1);
    Answer(c1, None, 0);
    ReplyReadEarly(Step(env, c1, e2));
  }

  lemma ReplyReadEarly(c: Conn)
    requires c.open && c.inRead && c.mode == Socks5 && c.s5 == Requested && c.status == Connecting
    requires c.zdtunSeq == ISS && c.clientSeq == 1 && c.given == [] && c.log == []
    ensures var c1 := Step(ProxyEnv(None), c, CanRead(Data([5, 0, 0, 1, 0, 0, 0, 0, 0, 0], false), None));
            c1.status == Connecting && c1.s5 == Established && c1.log == [Packet(SynAck, ISS, 1, [], true, 0, true)]
  {
    var d: bytes := [5, 0, 0, 1, 0, 0, 0, 0, 0, 0];
    var c0 := c.(fromServer := c.fromServer + d, handshake := c.handshake + 10);
    S.FirstReply(ProxyEnv(None), c0, d);
    hide Step, Socks5Reply;
    S.AfterReply(ProxyEnv(None), c, d, c0.(skip := 0, s5 := Established));
  }

  // ------------------------------------------------------------------ DNS

  /** A query that asks for recursion. */
  function Query(): bytes {
    [0, 7, 1, 0, 0, 1, 0, 0, 0, 0, 0, 0, 0]
  }

  /** Its answer, from a server that offers none. */
  function PlainAnswer(): bytes {
    [0, 7, 0x81, 0, 0, 1, 0, 1, 0, 0, 0, 0, 0]
  }

  /** A connection from a client that takes every packet, to a DNS server. */
  ghost predicate ToDns(env: Env, t: Tuple) {
    T.ServiceOf(t) == Dns && forall i: nat :: env.accepts(i)
  }

  /** The one query is answered by a server that offers no recursion: the connection still waits for its answer. */
  lemma AnswerNotCounted(env: Env, t: Tuple, mode: ProxyMode)
    requires ToDns(env, t)
    ensures var events := [N.Asked(Query()), N.Answered(PlainAnswer())];
            var c := N.DnsRun(env, T.NewFor(t, mode), events);
            N.Outstanding(events) == None && c.open && c.dns == 1
  {
    var c0, events := T.NewFor(t, mode), [N.Asked(Query()), N.Answered(PlainAnswer())];
    assert events[..1] == [N.Asked(Query())] && events[..1][..0] == [];
    assert N.DnsRun(env, c0, events[..1]) == N.DnsStep(env, c0, N.Asked(Query()));
    assert N.Outstanding(events[..1]) == N.Next(Some(0), N.Asked(Query())) == Some(1);
    N.AskedCounts(env, c0, Query());
    N.RecursionTested(Query());
    N.RecursionTested(PlainAnswer());
    var c1 := N.DnsStep(env, c0, N.Asked(Query()));
    assert c1.dns == 1 && c1.open && c1.inRead;
    N.AnsweredCounts(env, c1, PlainAnswer());
    hide N.DnsStep, T.AfterQuery, T.TakenForAnswer;
  }

  /** `k` queries, none of them answered. */
  function Queries(k: nat): seq<N.DnsEvent> {
    seq(k, i => N.Asked(Query()))
  }

  /** 256 queries are sent, and the connection counts none. */
  lemma QueriesWrap(env: Env, t: Tuple, mode: ProxyMode)
    requires ToDns(env, t)
    ensures var c := N.DnsRun(env, T.NewFor(t, mode), Queries(256));
            N.Outstanding(Queries(256)) == Some(256) && c.open && c.dns == 0
  {
    hide N.DnsRun, N.Outstanding, Queries;
    QueriesCount(env, t, mode, 256);
  }

  /** The state of a connection after `k` queries. */
  predicate Asking(c: Conn, k: nat) {
    && c.dns == k % 0x100 && c.service == Dns && !c.isTcp
    && if k == 0 then c.status == New && !c.open else c.status == Connected && c.open
  }

  lemma OneMoreQuery(env: Env, c: Conn, k: nat)
    requires Asking(c, k)
    ensures Asking(N.DnsStep(env, c, N.Asked(Query())), k + 1)
  {
    N.AskedCounts(env, c, Query());
    N.RecursionTested(Query());
    hide N.DnsStep, T.TakenForAnswer;
  }

  lemma {:induction false} QueriesCount(env: Env, t: Tuple, mode: ProxyMode, k: nat)
    requires ToDns(env, t)
    ensures N.Outstanding(Queries(k)) == Some(k) && Asking(N.DnsRun(env, T.NewFor(t, mode), Queries(k)), k)
  {
    if k > 0 {
      QueriesNext(env, T.NewFor(t, mode), k);
      QueriesCount(env, t, mode, k - 1);
      hide *;
      OneMoreQuery(env, N.DnsRun(env, T.NewFor(t, mode), Queries(k - 1)), k - 1);
    }
  }

  lemma QueriesNext(env: Env, c: Conn, k: nat)
    requires k > 0
    ensures N.DnsRun(env, c, Queries(k)) == N.DnsStep(env, N.DnsRun(env, c, Queries(k - 1)), N.Asked(Query()))
    ensures N.Outstanding(Queries(k - 1)) == Some(k - 1) ==> N.Outstanding(Queries(k)) == Some(k)
  {
    hide N.DnsStep;
    assert Queries(k)[..k - 1] == Queries(k - 1);
  }

  // ------------------------------------------------------------------ packets

  /** For every IPv6 flow some two bytes of payload make the UDP checksum come out as 0. */
  lemma UdpZeroHappens(t: Tuple)
    requires t.Valid() && t.ipver == 6
    ensures exists payload: bytes :: |payload| == 2 && P.UdpPacket(t, payload)[46] == 0 && P.UdpPacket(t, payload)[47] == 0
  {
    var s := P.UdpBlank(t, [0, 0]);
    var pseudo := P.StandardPseudo(t, 10);
    var w := C.Complement(C.Canon(C.WordSum(pseudo + s)));
    var payload: bytes := [w % 256, w / 256];
    assert s[8] == 0 && s[9] == 0;
    assert P.UdpBlank(t, payload) == C.StoreWord(s, 8, w);
    C.StoredComplementVerifies(pseudo, s, 8);
    hide P.UdpBlank, P.StandardPseudo, C.WordSum, C.NetworkSum, P.UdpPacket;
    P.EitherOrder(pseudo + P.UdpBlank(t, payload));
    P.UdpChecksumZero(t, payload);
  }

  /** An echo reply that can be sent: its tuple as a request would have it, and its message. */
  predicate IsReply(t: Tuple, m: bytes) {
    && t.Valid() && t.Transport() == Icmp && t.srcPort != [0, 0]
    && |m| >= 8 && P.IsEcho(m[0]) && !P.IsRequest(m[0]) && P.HeaderLen(t) + |m| <= P.MAX_PACKET
  }

  function ReplyParsed(t: Tuple, m: bytes): P.Parsed
    requires IsReply(t, m)
  {
    P.Parsed(P.IcmpReplyTuple(t, false), false, false, P.HeaderLen(t) + |m|, P.HeaderLen(t), 8, |m| - 8)
  }

  /** An echo reply opens a connection and has its ID written over the source port of the tuple; the next one with the same
      tuple does not find it, opens another, and then two entries have the same tuple. */
  lemma SecondEntry(t: Tuple, m: bytes, env: Env, k: T.Kernel, now: int)
    requires IsReply(t, m) && k.fd.Some? && k.fd.value < 1024 && k.fail == None
    ensures var packet, q := P.IcmpPacket(t, m), ReplyParsed(t, m);
            && P.ParsePkt(packet, map[]).r == P.Packet(q) && W.Readable(packet, q)
            && var es := T.Received([], packet, q, true, true, env, NoProxy, k, now);
               var es1 := T.Received(es, packet, q, true, true, env, NoProxy, k, now);
               |es| == 1 && |es1| == 2 && es1[0].tuple == es1[1].tuple == q.tuple.Rewritten()
  {
    ReplySent(t, m);
    hide *;
    TwoOpened(P.IcmpPacket(t, m), ReplyParsed(t, m), env, k, now);
  }

  lemma ReplySent(t: Tuple, m: bytes)
    requires IsReply(t, m)
    ensures var packet, q := P.IcmpPacket(t, m), ReplyParsed(t, m);
            && P.ParsePkt(packet, map[]).r == P.Packet(q) && W.Arrived(packet, |packet|, map[], q) && W.Readable(packet, q)
            && q.tuple.Transport() == Icmp && W.EchoId(packet, q) != [0, 0] && !P.IsRequest(packet[q.ipHdrLen])
  {
    P.IcmpRoundTrip(t, m);
    P.IcmpFields(t, m);
    hide P.AcceptedAs, P.IcmpPacket, P.ParsePkt;
    ReplyArrived(t, m, P.IcmpPacket(t, m), ReplyParsed(t, m));
  }

  lemma TwoOpened(packet: bytes, q: P.Parsed, env: Env, k: T.Kernel, now: int)
    requires W.Arrived(packet, |packet|, map[], q) && W.Readable(packet, q) && q.tuple.Transport() == Icmp
    requires W.EchoId(packet, q) != [0, 0] && !P.IsRequest(packet[q.ipHdrLen])
    requires k.fd.Some? && k.fd.value < 1024 && k.fail == None
    ensures var es := T.Received([], packet, q, true, true, env, NoProxy, k, now);
            var es1 := T.Received(es, packet, q, true, true, env, NoProxy, k, now);
            |es| == 1 && |es1| == 2 && es1[0].tuple == es1[1].tuple == q.tuple.Rewritten()
  {
    hide *;
    OpenedByReply([], packet, q, env, k, now);
    var es := T.Received([], packet, q, true, true, env, NoProxy, k, now);
    OpenedByReply(es, packet, q, env, k, now);
    var es1 := T.Received(es, packet, q, true, true, env, NoProxy, k, now);
    assert es1[..1][0] == es1[0];
  }

  lemma ReplyArrived(t: Tuple, m: bytes, packet: bytes, q: P.Parsed)
    requires IsReply(t, m) && packet == P.IcmpPacket(t, m) && q == ReplyParsed(t, m)
    requires P.AcceptedAs(P.IcmpReplyTuple(t, false), packet, 8, |m| - 8)
    ensures P.ParsePkt(packet, map[]).r == P.Packet(q) && W.Arrived(packet, |packet|, map[], q) && W.Readable(packet, q)
    ensures q.tuple.Transport() == Icmp && q.tuple.Rewritten() != q.tuple && W.EchoId(packet, q) == t.srcPort
    ensures !P.IsRequest(packet[q.ipHdrLen])
  {
    P.IcmpFields(t, m);
    hide P.ParsePkt, P.IcmpPacket;
    assert packet[..|packet|] == packet;
    var h := q.ipHdrLen;
    assert packet[h..][4..6] == packet[h + 4..h + 6] && packet[h..][..2][0] == packet[h] && m[..2][0] == m[0];
  }

  /** The reply opens a connection whatever others it opened before, and rewrites its tuple. */
  lemma OpenedByReply(es: seq<T.Entry>, packet: bytes, q: P.Parsed, env: Env, k: T.Kernel, now: int)
    requires W.Arrived(packet, |packet|, map[], q) && W.Readable(packet, q) && q.tuple.Transport() == Icmp
    requires !P.IsRequest(packet[q.ipHdrLen]) && W.EchoId(packet, q) != [0, 0]
    requires k.fd.Some? && k.fd.value < 1024 && k.fail == None
    requires |es| <= 1 && forall i :: 0 <= i < |es| ==> es[i].tuple != q.tuple
    ensures var es1 := T.Received(es, packet, q, true, true, env, NoProxy, k, now);
            && |es1| == |es| + 1 && es1[..|es|] == es && es1[|es|].tuple == q.tuple.Rewritten() != q.tuple
  {
    var t := q.tuple;
    assert T.FindEntry(es, t) == None;
    T.OpenCountBound(es);
    var e := T.Entry(t, t, now, env, T.NewFor(t, NoProxy));
    var l := T.LookedUp(es, t, true, true, env, NoProxy, now);
    assert l == es + [e] by {
      hide T.FindEntry, T.OpenCount;
    }
    T.FoundLast(es, e);
    T.OpenCountBound(l);
    hide T.AfterPacket, T.FindEntry, T.OpenCount, P.IsRequest, W.Arrived;
    T.FoundEntry(l, t);
    T.TupleKept(e, packet, q, true, k, now, |packet|, map[]);
  }

  // ------------------------------------------------------------------ a forced purge

  /** Connection `i`, with a socket or after the server closed. */
  function SomeEntry(i: nat, open: bool, now: int): T.Entry
    requires i < 0x1_0000
  {
    var t := Tuple([10, 0, 0, 1], [1, 2, 3, 4], [i / 256, i % 256], [0, 80], 4, IPPROTO_TCP);
    T.Entry(t, t, now, AnyEnv(), Run(AnyEnv(), NewConn(true, NoProxy), SomeRun(open)))
  }

  /** 32 connections that lost their sockets to the server's close, and after them 128 that hold one. */
  function FullTable(): seq<T.Entry> {
    seq(160, i requires 0 <= i < 160 => SomeEntry(i, i >= 32, if i < 32 then 0 else 1))
  }

  lemma SomeEntryIs(i: nat, open: bool, now: int)
    requires i < 0x1_0000
    ensures SomeEntry(i, open, now).conn.open == open && SomeEntry(i, open, now).conn.status == Connected
  {
    var env, c0, e1, e2 := AnyEnv(), NewConn(true, NoProxy), Client(Syn(1000), AT_ONCE), CanRead(Eof, None);
    AfterSyn(1000, AT_ONCE);
    hide Step, NewConn;
    RunStep(env, c0, [e1]);
    assert [e1][..0] == [] && Run(env, c0, []) == c0;
    TwoSteps(env, c0, e1, e2);
    HalfClosed(Step(env, c0, e1));
    hide Run;
  }

  function SomeRun(open: bool): seq<Event> {
    if open then [Client(Syn(1000), AT_ONCE)] else [Client(Syn(1000), AT_ONCE), CanRead(Eof, None)]
  }

  lemma SomeEntryFits(i: nat, open: bool, now: int)
    requires i < 0x1_0000
    ensures T.Fits(SomeEntry(i, open, now))
  {
    var e := SomeEntry(i, open, now);
    SomeShape(i, open, now);
    RunHappens(open);
    Rd.RunIsReady(AnyEnv(), true, NoProxy, SomeRun(open));
    hide SomeEntry, SomeRun, Run, Rd.Ready, NewConn, T.Reaches;
    assert T.Reached(AnyEnv(), e.conn);
  }

  lemma RunHappens(open: bool)
    ensures T.Reaches(AnyEnv(), NoProxy, SomeRun(open), Run(AnyEnv(), NewConn(true, NoProxy), SomeRun(open)))
  {
    hide Run, NewConn;
    var c0, events := NewConn(true, NoProxy), SomeRun(open);
    forall i | 0 <= i < |events|
      ensures D.Possible(Run(AnyEnv(), c0, events[..i]), events[i])
    {
      assert events[i] == Client(Syn(1000), AT_ONCE) || events[i] == CanRead(Eof, None);
    }
  }

  lemma SomeShape(i: nat, open: bool, now: int)
    requires i < 0x1_0000
    ensures var e := SomeEntry(i, open, now);
            && e.env == AnyEnv() && e.conn == Run(AnyEnv(), NewConn(true, NoProxy), SomeRun(open)) && T.Shaped(e) && e.conn.isTcp
  {
    RunHappens(open);
    RunIsTcp(AnyEnv(), NoProxy, SomeRun(open));
    hide Run, NewConn;
  }

  lemma RunIsTcp(env: Env, mode: ProxyMode, events: seq<Event>)
    requires D.PossibleRun(env, NewConn(true, mode), events)
    ensures Run(env, NewConn(true, mode), events).isTcp
  {
    D.RunIsDown(env, mode, events);
    hide D.Numbered, D.Proper;
  }

  lemma TableFits()
    ensures T.AllFit(FullTable()) && T.UniqueTuples(FullTable())
  {
    var es := FullTable();
    forall i | 0 <= i < 160
      ensures T.Fits(es[i]) && es[i].key.srcPort == [i / 256, i % 256]
    {
      KeyOf(i, i >= 32, if i < 32 then 0 else 1);
      SomeEntryFits(i, i >= 32, if i < 32 then 0 else 1);
    }
    hide SomeEntry, T.Fits;
  }

  lemma KeyOf(i: nat, open: bool, now: int)
    requires i < 0x1_0000
    ensures SomeEntry(i, open, now).key.srcPort == [i / 256, i % 256]
  {
    hide Run;
  }

  /** The forced purge of that table, which can come about, removes the 32 oldest connections and frees no socket: 128
      stay open. */
  lemma PurgeFreesNothing()
    ensures var es := FullTable();
            && T.AllFit(es) && T.UniqueTuples(es)
            && |T.Purged(es, 2)| == 128 && T.OpenCount(es) == T.OpenCount(T.Purged(es, 2)) == 128
  {
    var es := FullTable();
    TableFits();
    TableFacts();
    hide T.AllFit, T.UniqueTuples;
    hide FullTable;
    AllKept(es, 2);
    AlreadySorted(es);
    hide T.Filter, T.Keep, T.ByTime, T.Purged, T.OpenCount, T.Expired;
    HalfOpen(es);
    T.PurgedCases(es, 2);
  }

  lemma HalfOpen(es: seq<T.Entry>)
    requires |es| == 160 && forall i :: 0 <= i < 160 ==> es[i].conn.open == (i >= 32)
    ensures T.OpenCount(es) == T.OpenCount(es[32..]) == 128
  {
    hide T.OpenCount;
    assert es == es[..32] + es[32..];
    T.OpenCountConcat(es[..32], es[32..]);
    T.OpenCountBound(es[32..]);
    T.SomeOpen(es[..32]);
  }

  lemma TableFacts()
    ensures var es := FullTable();
            |es| == 160 && forall i :: 0 <= i < 160 ==>
              es[i].conn.open == (i >= 32) && !T.Expired(es[i], 2) && es[i].tstamp == if i < 32 then 0 else 1
  {
    hide SomeEntry;
    var es := FullTable();
    forall i | 0 <= i < 160
      ensures es[i].conn.open == (i >= 32) && !T.Expired(es[i], 2) && es[i].tstamp == if i < 32 then 0 else 1
    {
      SomeEntryIs(i, i >= 32, if i < 32 then 0 else 1);
      TimeOf(i, i >= 32, if i < 32 then 0 else 1);
      assert es[i] == SomeEntry(i, i >= 32, if i < 32 then 0 else 1);
    }
  }

  lemma TimeOf(i: nat, open: bool, now: int)
    requires i < 0x1_0000
    ensures SomeEntry(i, open, now).tstamp == now && SomeEntry(i, open, now).key.Transport() == Tcp
  {
    hide Run;
  }

  lemma {:induction false} AllKept(es: seq<T.Entry>, now: int)
    requires forall i :: 0 <= i < |es| ==> !T.Expired(es[i], now)
    ensures T.Filter(es, T.Keep(es, now)) == es
  {
    hide T.Expired;
    if es != [] {
      var before := es[..|es| - 1];
      assert T.Keep(es, now)[..|es| - 1] == T.Keep(before, now);
      AllKept(before, now);
      assert es == before + [es[|es| - 1]];
    }
  }

  lemma {:induction false} AlreadySorted(es: seq<T.Entry>)
    requires T.Ascending(es)
    ensures T.ByTime(es) == es
  {
    if es != [] {
      var before, e := es[..|es| - 1], es[|es| - 1];
      AlreadySorted(before);
      T.PositionStep(before, e.tstamp);
      assert es == before + [e];
      assert T.Insert(before, |before|, e) == before + [e];
    }
  }

  // ------------------------------------------------------------------ records, register, messages

  /** Opened, delivered, failed for want of a socket: the record is not released at the end of the capture. */
  lemma RecordLost(refused: nat -> bool)
    ensures var s := R.Run([R.Opened, R.Dumped, R.Failed(0)]);
            |s.recs| == 1 && |R.Shutdown(s, refused).recs| == 1 && R.Shutdown(s, refused).recs[0].releases == 0
  {
    hide R.Shutdown, R.Inv;
    var s := R.Run([R.Opened, R.Dumped, R.Failed(0)]);
    SilentAfterDump();
    R.ReleasedAtTheEnd(s, refused, 0);
  }

  lemma FirstDump()
    ensures R.Run([R.Opened, R.Dumped]) ==
            R.State([R.Rec(false, false, false, 0)], [], [], [R.TunConn(0, false)], 1, [R.Delivery([0], [])])
  {
    hide *;
    var e: seq<R.Event> := [R.Opened, R.Dumped];
    assert e[..1] == [R.Opened];
    FirstRecord();
    R.RunStep(e);
    OneDumped(R.Run(e[..1]));
  }

  lemma FirstRecord()
    ensures R.Run([R.Opened]) == R.State([R.Rec(true, false, false, 0)], [0], [], [R.TunConn(0, false)], 0, [])
  {
    assert R.Run([]) == R.State([], [], [], [], 0, []);
    hide R.Run, R.Inv;
    var e: seq<R.Event> := [R.Opened];
    assert e[..0] == [];
    R.RunStep(e);
  }

  lemma OneDumped(s: R.State)
    requires s == R.State([R.Rec(true, false, false, 0)], [0], [], [R.TunConn(0, false)], 0, [])
    ensures R.SizesOk(s)
    ensures R.Step(s, R.Dumped) ==
            R.State([R.Rec(false, false, false, 0)], [], [], [R.TunConn(0, false)], 1, [R.Delivery([0], [])])
  {
    assert R.Queued(s) == [0];
    R.AfterDump(s, false, 0);
    hide R.ClearBoth, R.Dump;
    assert R.Housekeep(s).recs == [R.Housekeep(s).recs[0]];
  }

  lemma SilentAfterDump()
    ensures R.Run([R.Opened, R.Dumped, R.Failed(0)]) ==
            R.State([R.Rec(false, false, true, 0)], [], [], [R.TunConn(0, true)], 1, [R.Delivery([0], [])])
  {
    hide *;
    FirstDump();
    var e: seq<R.Event> := [R.Opened, R.Dumped, R.Failed(0)];
    assert e[..2] == [R.Opened, R.Dumped];
    R.RunStep(e);
    OneFailed();
  }

  lemma OneFailed()
    ensures var s := R.State([R.Rec(false, false, false, 0)], [], [], [R.TunConn(0, false)], 1, [R.Delivery([0], [])]);
            && R.SizesOk(s)
            && R.Step(s, R.Failed(0)) ==
               R.State([R.Rec(false, false, true, 0)], [], [], [R.TunConn(0, true)], 1, [R.Delivery([0], [])])
  {
  }

  /** A register that was reset holds nothing, and still counts the connection it held on its interface. */
  method ResetKeepsCount(c: Reg.ConnectionDescriptor) returns (r: Reg.ConnectionsRegister)
    requires c.ifidx > 0 && !c.alerted && !c.blockAccounted
    modifies c
    ensures r.Valid() && r.contents == [] && !r.InterfacesExact()
  {
    OneConnection(c);
    hide *;
    r := new Reg.ConnectionsRegister(4);
    r.NewConnections([c]);
    CountedOnce(r, c);
    r.Reset();
  }

  /** A connection of five bytes, and then an update that says nothing of its bytes: the totals of its app fall short. */
  method BytesTakenBack(c: Reg.ConnectionDescriptor) returns (r: Reg.ConnectionsRegister)
    requires !c.alerted && !c.blockAccounted
    modifies c
    ensures r.Valid() && r.contents == [c] && !r.TotalsExact()
  {
    OneConnection(c);
    var stats := Reg.ConnectionUpdate(c.incrId, true, 5, 0, 0, false, false, false);
    var other := Reg.ConnectionUpdate(c.incrId, false, 0, 0, 0, false, false, false);
    SaysNothing(c, stats, other);
    hide *;
    r := new Reg.ConnectionsRegister(4);
    r.NewConnections([c]);
    assert |Reg.Marks([c])| == 1;
    r.ConnectionsUpdates([stats, other]);
  }

  lemma SaysNothing(c: Reg.ConnectionDescriptor, stats: Reg.ConnectionUpdate, other: Reg.ConnectionUpdate)
    requires stats == Reg.ConnectionUpdate(c.incrId, true, 5, 0, 0, false, false, false)
    requires other == Reg.ConnectionUpdate(c.incrId, false, 0, 0, 0, false, false, false)
    ensures Reg.AllBytesWithStats([stats, other])
    ensures forall marks: seq<Reg.Mark> :: |marks| == 1 ==> !Reg.CarryStats([stats, other], [c], marks)
  {
    forall marks: seq<Reg.Mark> | |marks| == 1
      ensures !Reg.CarryStats([stats, other], [c], marks)
    {
      assert [stats, other][..1] == [stats] && [stats][..0] == [];
      assert Reg.MarkAfterAll([stats], c.incrId, marks[0]).sent == 5;
      assert [c][0].incrId == [stats, other][1].incrId;
    }
  }

  lemma OneConnection(c: Reg.ConnectionDescriptor)
    ensures Reg.Consecutive([]) && Reg.ContinuesIds([], [c]) && Reg.LastN([] + [c], 4) == [c]
  {
  }

  lemma CountedOnce(r: Reg.ConnectionsRegister, c: Reg.ConnectionDescriptor)
    requires r.InterfacesExact() && r.contents == [c] && c.ifidx > 0
    ensures r.mConnsByIface != map[]
  {
    assert Reg.OnInterface([c], c.ifidx) == Reg.OnInterface([c][..0], c.ifidx) + 1;
  }

  /** A message announces no body, and another follows in the same chunk: that is taken for its body. */
  lemma EmptyBodySwallows(x: bytes)
    requires x != []
    ensures var blank: bytes := [13, 10, 13, 10];
            var rd := H.Reader(b => H.HeaderInfo(None, Some(0), false, false), b => None, (e, b) => b);
            var e := H.Handle(rd, H.Start(true), blank + x).emitted;
            e != [] && e[0].payload != blank
  {
    var blank: bytes := [13, 10, 13, 10];
    var rd := H.Reader(b => H.HeaderInfo(None, Some(0), false, false), b => None, (e, b) => b);
    var m := H.Message(blank, []);
    assert H.BlankLineAt(blank, 0);
    assert H.EndOfHeaders(blank) == 4;
    assert m.Wire() == blank;
    H.CoalescedMessages(rd, m, x);
  }

  /** A message cut just before the blank line that ends its header block: "A" CR LF, then CR LF. In one chunk it is emitted;
      in two nothing is. */
  lemma BlankLineCut()
    ensures var rd := H.Reader(b => H.HeaderInfo(None, Some(0), false, false), b => None, (e, b) => b);
            && H.Handle(rd, H.Start(true), [65, 13, 10, 13, 10]).emitted != []
            && H.HandleAll(rd, H.Start(true), [[65, 13, 10], [13, 10]]).emitted == []
  {
    var rd := H.Reader(b => H.HeaderInfo(None, Some(0), false, false), b => None, (e, b) => b);
    WholeEmitted(rd);
    HalvesHeld(rd);
  }

  lemma WholeEmitted(rd: H.Reader)
    requires forall b :: rd.parseHeaders(b) == H.HeaderInfo(None, Some(0), false, false)
    ensures H.Handle(rd, H.Start(true), [65, 13, 10, 13, 10]).emitted != []
  {
    var whole: bytes := [65, 13, 10, 13, 10];
    assert whole[0..4][0] == 65;
    assert H.BlankLineAt(whole, 1) && !H.BlankLineAt(whole, 0);
    assert H.EndOfHeadersFrom(whole, 0) == H.EndOfHeadersFrom(whole, 1) == 5;
    hide H.Handle;
    BodilessEmitted(rd, whole);
  }

  lemma HalvesHeld(rd: H.Reader)
    requires forall b :: rd.parseHeaders(b) == H.HeaderInfo(None, Some(0), false, false)
    ensures H.HandleAll(rd, H.Start(true), [[65, 13, 10], [13, 10]]).emitted == []
  {
    var pieces: seq<bytes> := [[65, 13, 10], [13, 10]];
    assert H.EndOfHeadersFrom(pieces[0], 0) == 0 == H.EndOfHeadersFrom(pieces[1], 0);
    assert H.Unfinished(rd, pieces[0]) && H.Unfinished(rd, pieces[1]);
    TwoFlat(pieces);
    hide H.Handle, H.HandleAll, H.EndOfHeaders, H.Unfinished, Flat;
    H.HeadersHeld(rd, H.Start(true), pieces);
  }

  lemma TwoFlat(pieces: seq<bytes>)
    requires |pieces| == 2 && |pieces[0]| == 3 && |pieces[1]| == 2
    ensures |Flat(pieces)| == 5 && Flat<byte>([]) == []
  {
    assert pieces[..1][..0] == [];
    assert Flat(pieces[..1]) == pieces[0];
    assert Flat(pieces) == pieces[0] + pieces[1];
  }

  lemma BodilessEmitted(rd: H.Reader, head: bytes)
    requires H.EndOfHeaders(head) == |head| > 0 && rd.parseHeaders(head) == H.HeaderInfo(None, Some(0), false, false)
    ensures H.Handle(rd, H.Start(true), head).emitted != []
  {
    assert head[..|head|] == head;
    hide H.EndOfHeaders, Flat;
  }

  /** A chunked message whose last size line comes with the blank line after it: the blank line is emitted as its body. */
  lemma BlankLineInBody()
    ensures var head: bytes := [13, 10, 13, 10];
            var rd := H.Reader(b => H.HeaderInfo(None, None, false, true), b => Some(H.SizeLine(1, Some(0))), (e, b) => b);
            H.Handle(rd, H.Start(true), head + [48, 13, 10, 13, 10]).emitted == [H.Emitted(head + [13, 10], false)]
  {
    var head: bytes := [13, 10, 13, 10];
    var rd := H.Reader(b => H.HeaderInfo(None, None, false, true), b => Some(H.SizeLine(1, Some(0))), (e, b) => b);
    var body: bytes := [48, 13, 10, 13, 10];
    assert H.BlankLineAt(head, 0) && H.EndOfHeaders(head) == 4;
    assert HC.Ending([48], [13, 10]) == body;
    OneFlat(body);
    assert HC.BlocksWire([]) + HC.Ending([48], [13, 10]) == body;
    assert HC.ChunkedCut(rd, [body], [], [48], [13, 10]);
    hide H.Handle, H.EndOfHeaders, Flat;
    HC.ChunkedReassembled(rd, head, [body], [], [48], [13, 10]);
    OneHandled(rd, head + body);
    assert HC.WithHeader(head, [body]) == [head + body];
    assert HC.BlocksData([]) + [13, 10] == [13, 10];
  }

  lemma OneFlat(x: bytes)
    ensures Flat([x]) == x
  {
    assert [x][..0] == [];
  }

  lemma OneHandled(rd: H.Reader, x: bytes)
    ensures H.HandleAll(rd, H.Start(true), [x]) == H.Handle(rd, H.Start(true), x)
  {
    hide H.Handle;
    assert [x][..0] == [];
    assert H.HandleAll(rd, H.Start(true), []) == H.Start(true);
  }
}
