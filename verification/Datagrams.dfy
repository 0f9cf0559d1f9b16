/** UDP and ICMP: what becomes of each message, and what every run of such a connection carries in both directions. */
module Datagrams {
  import opened Words
  import opened Tuples
  import opened TcpProxy
  import opened ConnTable
  import P = Packet
  import W = TcpWire
  import A = TcpAnswers

  // ------------------------------------------------------------------ a message from the server

  /** An ICMP message that is passed on: an echo request or reply, of either IP version. */
  predicate EchoMessage(m: bytes) {
    |m| >= 8 && (m[0] == 0 || m[0] == 8 || m[0] == 128 || m[0] == 129)
  }

  /** It answers a pending DNS query, as the code sees it. */
  predicate Answers(c: Conn, m: bytes) {
    c.service == Dns && |m| >= 13 && m[3] >= 0x80 && c.dns > 0
  }

  /** The connection after the client took the message `m`: one packet more. */
  function Passed(c: Conn, m: bytes): Conn {
    c.(sends := c.sends + 1, dns := if Answers(c, m) then c.dns - 1 else c.dns,
       log := c.log + [Packet(Kind.Datagram, c.zdtunSeq, c.clientSeq, m, true, |c.given|, true)])
  }

  lemma TopBit(a: byte, b: byte)
    ensures (a as int + b as int * 0x100) / 0x8000 % 2 == 1 <==> b >= 0x80
  {
  }

  lemma AnswerIs(m: bytes)
    requires |m| >= 13
    ensures TakenForAnswer(m) <==> m[3] >= 0x80
  {
    TopBit(m[2], m[3]);
  }

  /** A message that recv() returns goes to the client, in one packet with the message as it is, and the connection is over
      if it was the last answer pending. For ICMP only echo messages do; anything else ends the connection. */
  lemma MessageServed(env: Env, c: Conn, wr: bool, a: Answer)
    requires !c.isTcp && A.Live(c) && c.open && a.datagram.Message?
    ensures var m := a.datagram.m;
            Served(env, c, true, wr, a) ==
            if c.service == Echo && !EchoMessage(m) then Outcome(A.GivenUp(c, Error), if |m| < 8 then -1 else 0)
            else if !env.accepts(c.sends) then Outcome(A.GivenUp(c.(sends := c.sends + 1), ClientError), -1)
            else Outcome(if Answers(c, m) && c.dns == 1 then A.GivenUp(Passed(c, m), Closed) else Passed(c, m), 0)
  {
    var m := a.datagram.m;
    var p := Reply(c, Kind.Datagram, m);
    A.CloseGivesUp(env, c, Error);
    assert Served(env, c, true, wr, a) == DatagramReply(env, c, a.datagram);
    if env.accepts(c.sends) {
      assert SendToClient(env, c, p) == Outcome(Accepted(c, p), 0);
      AnsweredIs(env, c, m);
    } else {
      assert SendToClient(env, c, p) == Outcome(A.GivenUp(c.(sends := c.sends + 1), ClientError), -1);
    }
    hide CloseConn, SendToClient, A.GivenUp, AfterAnswer, Passed, Accepted, Answers, Served;
  }

  lemma AnsweredIs(env: Env, c: Conn, m: bytes)
    requires !c.isTcp && A.Live(c) && c.open
    ensures AfterAnswer(env, Accepted(c, Reply(c, Kind.Datagram, m)), m) ==
            if Answers(c, m) && c.dns == 1 then A.GivenUp(Passed(c, m), Closed) else Passed(c, m)
  {
    if |m| >= 13 {
      AnswerIs(m);
    }
    A.CloseGivesUp(env, Passed(c, m), Closed);
    hide CloseConn, A.GivenUp, TakenForAnswer;
  }

  /** recv() that fails ends the connection, and the client is sent nothing. */
  lemma RecvFails(env: Env, c: Conn, wr: bool, a: Answer)
    requires !c.isTcp && A.Live(c) && c.open && a.datagram.RecvError?
    ensures Served(env, c, true, wr, a) == Outcome(A.GivenUp(c, A.ErrorStatus(a.datagram.e)), -1)
  {
    A.ErrorCloses(env, c, a.datagram.e);
    hide CloseOnError, A.GivenUp;
  }

  /** The time of the last packet is that of a message passed on, and of an ICMP echo message also if the client refuses
      it. */
  lemma ServedTime(e: Entry, rd: bool, wr: bool, a: Answer, now: int)
    requires !e.conn.isTcp
    ensures ServedEntry(e, rd, wr, a, now).tstamp ==
            if e.conn.open && rd && a.datagram.Message? &&
               (if e.conn.service == Echo then EchoMessage(a.datagram.m) else e.env.accepts(e.conn.sends)) then now
            else e.tstamp
  {
    hide Served;
  }

  // ------------------------------------------------------------------ a packet from the client

  /** The connection after send() took the message `m`. */
  function Handed(c: Conn, m: bytes): Conn {
    c.(requests := c.requests + [m],
       dns := if c.service == Dns && |m| >= 13 && m[3] < 0x80 then (c.dns + 1) % 256 else c.dns)
  }

  lemma QueryIs(c: Conn, m: bytes)
    ensures AfterQuery(c.(requests := c.requests + [m]), m) == Handed(c, m)
  {
    if |m| >= 13 {
      AnswerIs(m);
    }
  }

  /** With a socket at hand, which the first packet gets, a message is sent as it is, unless a call fails: that ends the
      connection, as does having no socket. */
  lemma MessageForwarded(env: Env, c: Conn, proto: Proto, socketOk: bool, setup: Option<SockError>, fail: Option<SockError>, m: bytes)
    requires !c.isTcp && A.Live(c) && (proto == Udp || proto == Icmp)
    ensures var c1 := if c.status == New then c.(open := true, inRead := true, status := Connected) else c;
            DatagramForward(env, c, proto, socketOk, setup, fail, m) ==
            if c.status == New && !socketOk then
              Outcome(if proto == Icmp then c.(status := SocketError) else A.GivenUp(c, Error), -1)
            else if c.status == New && proto == Udp && setup.Some? then Outcome(A.GivenUp(c1, A.ErrorStatus(setup.value)), -1)
            else if fail.Some? then Outcome(A.GivenUp(c1, A.ErrorStatus(fail.value)), if proto == Icmp then -1 else 0)
            else Outcome(Handed(c1, m), 0)
  {
    var c1 := if c.status == New then c.(open := true, inRead := true, status := Connected) else c;
    DatagramCases(env, c, proto, socketOk, setup, fail, m);
    StartIs(env, c, proto, socketOk, setup);
    SentIs(env, c1, proto, fail, m);
    A.CloseGivesUp(env, c, Error);
    A.ClosedTwice(env, c.(status := SocketError), Error);
    Fails(env, c1, setup);
    Fails(env, c1, fail);
    hide CloseConn, A.GivenUp, A.ErrorStatus, Handed, DatagramStart, DatagramSent, DatagramForward;
  }

  lemma StartIs(env: Env, c: Conn, proto: Proto, socketOk: bool, setup: Option<SockError>)
    requires !c.isTcp && A.Live(c) && (proto == Udp || proto == Icmp)
    ensures var c1 := if c.status == New then c.(open := true, inRead := true, status := Connected) else c;
            DatagramStart(env, c, proto, socketOk, setup) ==
            if c.status == New && !socketOk then Outcome(if proto == Icmp then c.(status := SocketError) else c, -1)
            else if c.status == New && proto == Udp && setup.Some? then Outcome(A.GivenUp(c1, A.ErrorStatus(setup.value)), -1)
            else Outcome(c1, 0)
  {
    var c0 := c.(open := true, inRead := true);
    Fails(env, c0, setup);
    if setup.Some? && c.status == New {
      SameGivenUp(c0, c0.(status := Connected), setup);
    }
    hide CloseConn, CloseOnError, A.GivenUp, A.ErrorStatus;
  }

  lemma SentIs(env: Env, c: Conn, proto: Proto, fail: Option<SockError>, m: bytes)
    requires !c.isTcp && A.Live(c)
    ensures DatagramSent(env, c, proto, fail, m) ==
            if fail.Some? then Outcome(A.GivenUp(c, A.ErrorStatus(fail.value)), if proto == Icmp then -1 else 0)
            else Outcome(Handed(c, m), 0)
  {
    Fails(env, c, fail);
    QueryIs(c, m);
    hide CloseConn, CloseOnError, A.GivenUp, A.ErrorStatus, AfterQuery, Handed;
  }

  lemma SameGivenUp(c0: Conn, c1: Conn, fail: Option<SockError>)
    requires c1 == c0.(status := Connected) && !c0.isTcp && fail.Some?
    ensures A.GivenUp(c0, A.ErrorStatus(fail.value)) == A.GivenUp(c1, A.ErrorStatus(fail.value))
  {
  }

  /** The error that ends the connection stays when it is closed once more. */
  lemma Fails(env: Env, c: Conn, fail: Option<SockError>)
    requires !c.isTcp && A.Live(c)
    ensures fail.Some? ==>
              && CloseOnError(env, c, fail.value).c == A.GivenUp(c, A.ErrorStatus(fail.value))
              && CloseConn(env, A.GivenUp(c, A.ErrorStatus(fail.value)), Error) == A.GivenUp(c, A.ErrorStatus(fail.value))
  {
    if fail.Some? {
      A.ErrorCloses(env, c, fail.value);
      A.ErrorIsOver(fail.value);
      A.GivenUpIsOver(c, A.ErrorStatus(fail.value));
      A.ClosedTwice(env, A.GivenUp(c, A.ErrorStatus(fail.value)), Error);
    }
  }

  // ------------------------------------------------------------------ runs

  /** What can happen to a connection: a packet of its client with the kernel's answers, a socket reported by select(), or
      a close. */
  datatype DatagramEvent =
    | FromClient(socketOk: bool, setup: Option<SockError>, fail: Option<SockError>, m: bytes)
    | FromServer(rd: bool, wr: bool, a: Answer)
    | Shut(st: Status)

  function DatagramStep(env: Env, proto: Proto, c: Conn, e: DatagramEvent): Conn {
    match e
    case FromClient(socketOk, setup, fail, m) => DatagramForward(env, c, proto, socketOk, setup, fail, m).c
    case FromServer(rd, wr, a) => Served(env, c, rd, wr, a).c
    case Shut(st) => CloseConn(env, c, st)
  }

  function DatagramRun(env: Env, proto: Proto, c: Conn, events: seq<DatagramEvent>): Conn {
    if events == [] then c
    else DatagramStep(env, proto, DatagramRun(env, proto, c, events[..|events| - 1]), events[|events| - 1])
  }

  /** The message recv() returns in an event, if any. */
  function Came(c: Conn, e: DatagramEvent): seq<bytes> {
    if c.open && e.FromServer? && e.rd && e.a.datagram.Message? then [e.a.datagram.m] else []
  }

  /** The message the client sends in an event while the connection is not over, if any. */
  function Asked(c: Conn, e: DatagramEvent): seq<bytes> {
    if A.Live(c) && e.FromClient? then [e.m] else []
  }

  function AllCame(env: Env, proto: Proto, c: Conn, events: seq<DatagramEvent>): seq<bytes> {
    if events == [] then []
    else
      var before := events[..|events| - 1];
      AllCame(env, proto, c, before) + Came(DatagramRun(env, proto, c, before), events[|events| - 1])
  }

  function AllAsked(env: Env, proto: Proto, c: Conn, events: seq<DatagramEvent>): seq<bytes> {
    if events == [] then []
    else
      var before := events[..|events| - 1];
      AllAsked(env, proto, c, before) + Asked(DatagramRun(env, proto, c, before), events[|events| - 1])
  }

  function Payloads(log: seq<Packet>): seq<bytes> {
    seq(|log|, i requires 0 <= i < |log| => log[i].payload)
  }

  /** The last message is missing in `got`. */
  predicate LastLost(got: seq<bytes>, all: seq<bytes>) {
    all != [] && got == all[..|all| - 1]
  }

  /** The ends of a connection that a message to the server can be lost with, and one to the client. */
  predicate LosesToServer(st: Status) {
    st == Error || st == SocketError || st == Status.Reset || st == Unreachable
  }

  predicate LosesToClient(service: Service, st: Status) {
    st == ClientError || (service == Echo && st == Error)
  }

  /** The connection passes on what it is given. */
  predicate Carries(c: Conn, asked: seq<bytes>, came: seq<bytes>) {
    && Shape(c)
    && (c.requests == asked || (LosesToServer(c.status) && LastLost(c.requests, asked)))
    && (Payloads(c.log) == came || (LosesToClient(c.service, c.status) && LastLost(Payloads(c.log), came)))
  }

  /** It has a socket exactly while it is connected, and all the client gets is datagrams. */
  predicate Shape(c: Conn) {
    && !c.isTcp && c.status != Connecting && (c.open <==> c.status == Connected)
    && forall i :: 0 <= i < |c.log| ==>
         c.log[i].kind == Kind.Datagram && c.log[i].whileOpen && c.log[i].live && (c.service == Echo ==> EchoMessage(c.log[i].payload))
  }

  lemma PassedPayloads(log: seq<Packet>, p: Packet)
    ensures Payloads(log + [p]) == Payloads(log) + [p.payload]
  {
  }

  /** A live connection has carried everything. */
  lemma LiveCarries(c: Conn, asked: seq<bytes>, came: seq<bytes>)
    requires Carries(c, asked, came) && A.Live(c)
    ensures Shape(c) && c.requests == asked && Payloads(c.log) == came
  {
  }

  lemma EndCarries(c: Conn, st: Status, asked: seq<bytes>, came: seq<bytes>, ask: seq<bytes>, msg: seq<bytes>)
    requires Shape(c) && c.requests == asked && Payloads(c.log) == came && st !in {New, Connecting, Connected}
    requires ask == [] || (|ask| == 1 && LosesToServer(st))
    requires msg == [] || (|msg| == 1 && LosesToClient(c.service, st))
    ensures Carries(A.GivenUp(c, st), asked + ask, came + msg) && A.GivenUp(c, st).service == c.service
  {
    hide Payloads;
    assert (asked + ask)[..|asked|] == asked && (came + msg)[..|came|] == came;
  }

  lemma GoOnCarries(c: Conn, asked: seq<bytes>, came: seq<bytes>)
    requires Shape(c) && c.requests == asked && Payloads(c.log) == came
    ensures Carries(c, asked, came)
  {
  }

  lemma OverStays(env: Env, proto: Proto, c: Conn, e: DatagramEvent)
    requires !A.Live(c) && !c.open
    ensures DatagramStep(env, proto, c, e) == c && Came(c, e) == [] && Asked(c, e) == []
  {
  }

  lemma StepCarries(env: Env, proto: Proto, c: Conn, e: DatagramEvent, asked: seq<bytes>, came: seq<bytes>)
    requires Carries(c, asked, came) && (proto == Udp || proto == Icmp)
    ensures var c1 := DatagramStep(env, proto, c, e);
            Carries(c1, asked + Asked(c, e), came + Came(c, e)) && c1.service == c.service
  {
    assert asked + [] == asked && came + [] == came;
    if !A.Live(c) {
      OverStays(env, proto, c, e);
    } else {
      LiveCarries(c, asked, came);
      hide Carries, Shape, Payloads, A.GivenUp;
      match e
      case FromClient(socketOk, setup, fail, m) => ForwardCarries(env, proto, c, e, asked, came);
      case FromServer(rd, wr, a) =>
        if c.open && rd {
          ServeCarries(env, proto, c, e, asked, came);
        } else {
          NothingServed(env, c, e);
        }
      case Shut(st) =>
        A.CloseGivesUp(env, c, st);
        EndCarries(c, if st in {New, Connecting, Connected} then Closed else st, asked, came, [], []);
    }
  }

  lemma NothingServed(env: Env, c: Conn, e: DatagramEvent)
    requires e.FromServer? && !(c.open && e.rd) && !c.isTcp
    ensures Served(env, c, e.rd, e.wr, e.a).c == c && Came(c, e) == [] == Asked(c, e)
  {
  }

  lemma ShapeOf(c: Conn)
    requires Shape(c)
    ensures !c.isTcp && (c.open <==> c.status == Connected)
  {
  }

  lemma OpenShape(c: Conn, m: bytes)
    requires Shape(c) && A.Live(c)
    ensures var c1 := if c.status == New then c.(open := true, inRead := true, status := Connected) else c;
            && c1.service == c.service && Handed(c1, m).service == c.service
            && Shape(c1) && Shape(Handed(c1, m)) && Handed(c1, m).requests == c.requests + [m] && Handed(c1, m).log == c.log
  {
  }

  lemma ForwardCarries(env: Env, proto: Proto, c: Conn, e: DatagramEvent, asked: seq<bytes>, came: seq<bytes>)
    requires Shape(c) && c.requests == asked && Payloads(c.log) == came && A.Live(c)
    requires (proto == Udp || proto == Icmp) && e.FromClient?
    ensures var c1 := DatagramStep(env, proto, c, e);
            Carries(c1, asked + Asked(c, e), came + Came(c, e)) && c1.service == c.service
  {
    ShapeOf(c);
    OpenShape(c, e.m);
    assert Asked(c, e) == [e.m] && Came(c, e) == [] && came + [] == came;
    MessageForwarded(env, c, proto, e.socketOk, e.setup, e.fail, e.m);
    var c1 := if c.status == New then c.(open := true, inRead := true, status := Connected) else c;
    hide DatagramForward, A.GivenUp, A.ErrorStatus, Payloads, Carries, Shape, Handed, LosesToClient;
    EndCarries(c, Error, asked, came, [e.m], []);
    EndCarries(c, SocketError, asked, came, [e.m], []);
    FailCarries(c1, e.setup, asked, came, e.m);
    FailCarries(c1, e.fail, asked, came, e.m);
    GoOnCarries(Handed(c1, e.m), asked + [e.m], came);
  }

  lemma FailCarries(c: Conn, fail: Option<SockError>, asked: seq<bytes>, came: seq<bytes>, m: bytes)
    requires Shape(c) && c.requests == asked && Payloads(c.log) == came
    ensures fail.Some? ==>
              var c1 := A.GivenUp(c, A.ErrorStatus(fail.value)); Carries(c1, asked + [m], came) && c1.service == c.service
  {
    if fail.Some? {
      assert LosesToServer(A.ErrorStatus(fail.value));
      assert came + [] == came;
      hide A.GivenUp, A.ErrorStatus, Payloads, Carries, Shape;
      EndCarries(c, A.ErrorStatus(fail.value), asked, came, [m], []);
    }
  }

  lemma PassedShape(c: Conn, m: bytes)
    requires Shape(c)
    ensures Passed(c, m).service == c.service && ((c.service == Echo ==> EchoMessage(m)) ==> Shape(Passed(c, m)))
    ensures Passed(c, m).requests == c.requests && Payloads(Passed(c, m).log) == Payloads(c.log) + [m]
    ensures var c1 := c.(sends := c.sends + 1); Shape(c1) && c1.requests == c.requests && c1.log == c.log
  {
    PassedPayloads(c.log, Packet(Kind.Datagram, c.zdtunSeq, c.clientSeq, m, true, |c.given|, true));
  }

  lemma ServeCarries(env: Env, proto: Proto, c: Conn, e: DatagramEvent, asked: seq<bytes>, came: seq<bytes>)
    requires Shape(c) && c.requests == asked && Payloads(c.log) == came && A.Live(c) && e.FromServer? && c.open && e.rd
    ensures var c1 := DatagramStep(env, proto, c, e);
            Carries(c1, asked + Asked(c, e), came + Came(c, e)) && c1.service == c.service
  {
    ShapeOf(c);
    assert asked + [] == asked && came + [] == came && Asked(c, e) == [];
    assert DatagramStep(env, proto, c, e) == Served(env, c, true, e.wr, e.a).c;
    if e.a.datagram.Message? {
      assert Came(c, e) == [e.a.datagram.m];
      hide *;
      MessageCarries(env, c, e.wr, e.a, asked, came);
    } else {
      assert Came(c, e) == [];
      RecvFails(env, c, e.wr, e.a);
      A.ErrorIsOver(e.a.datagram.e);
      hide *;
      EndCarries(c, A.ErrorStatus(e.a.datagram.e), asked, came, [], []);
    }
  }

  lemma MessageCarries(env: Env, c: Conn, wr: bool, a: Answer, asked: seq<bytes>, came: seq<bytes>)
    requires Shape(c) && c.requests == asked && Payloads(c.log) == came && A.Live(c) && c.open && a.datagram.Message?
    ensures var c1 := Served(env, c, true, wr, a).c; Carries(c1, asked, came + [a.datagram.m]) && c1.service == c.service
  {
    ShapeOf(c);
    var m := a.datagram.m;
    MessageServed(env, c, wr, a);
    PassedShape(c, m);
    assert asked + [] == asked && came + [m] + [] == came + [m];
    hide Served, A.GivenUp, Payloads, EchoMessage, Shape, Carries, Passed, Answers, LosesToServer;
    if c.service == Echo && !EchoMessage(m) {
      EndCarries(c, Error, asked, came, [], [m]);
    } else if !env.accepts(c.sends) {
      EndCarries(c.(sends := c.sends + 1), ClientError, asked, came, [], [m]);
    } else if Answers(c, m) && c.dns == 1 {
      EndCarries(Passed(c, m), Closed, asked, came + [m], [], []);
    } else {
      GoOnCarries(Passed(c, m), asked, came + [m]);
    }
  }

  /** In every run the messages the client sends go to the server, and those recv() returns go to the client, each once, as
      they are and in order; only the last one can be missing, and the connection has ended with an error then. */
  lemma {:induction false} RunCarries(env: Env, t: Tuple, mode: ProxyMode, events: seq<DatagramEvent>)
    requires t.Transport() == Udp || t.Transport() == Icmp
    ensures var c0, proto := NewFor(t, mode), t.Transport();
            var c := DatagramRun(env, proto, c0, events);
            Carries(c, AllAsked(env, proto, c0, events), AllCame(env, proto, c0, events)) && c.service == c0.service
  {
    var c0, proto := NewFor(t, mode), t.Transport();
    if events != [] {
      var before := events[..|events| - 1];
      RunCarries(env, t, mode, before);
      StepCarries(env, proto, DatagramRun(env, proto, c0, before), events[|events| - 1], AllAsked(env, proto, c0, before),
                  AllCame(env, proto, c0, before));
    }
  }

  /** A packet forwarded on an entry of the table, and an entry that is served, take such a step; a TCP segment takes one of
      the machine of TcpProxy. A packet that leaves its connection alive is its last packet so far. */
  lemma PacketsAreSteps(e: Entry, mem: bytes, q: P.Parsed, socketOk: bool, k: Kernel, now: int, rd: bool, wr: bool, a: Answer)
    requires W.Readable(mem, q) && e.key == q.tuple
    ensures var e1 := AfterPacket(e, mem, q, socketOk, k, now);
            && e1.conn == (if q.tuple.Transport() == Tcp then
                             Step(e.env, e.conn, Client(W.SegmentOf(mem, q), SynResult(socketOk, k.connect, k.hello)))
                           else
                             DatagramStep(e.env, q.tuple.Transport(), e.conn, FromClient(socketOk, k.setup, k.fail, SentOf(mem, q))))
            && (A.Live(e1.conn) ==> e1.tstamp == now) && (!A.Live(e.conn) ==> e1.tstamp == e.tstamp)
    ensures var e1 := ServedEntry(e, rd, wr, a, now);
            && e1.tuple == e.tuple && e1.conn == DatagramStep(e.env, q.tuple.Transport(), e.conn, FromServer(rd, wr, a))
            && (e.conn.isTcp ==> e1.tstamp == if e.conn.open && (rd || (wr && e.conn.queue == [] && a.async.AsyncDone?)) then now
                                              else e.tstamp)
  {
    if q.tuple.Transport() == Tcp {
      ForwardedSegment(e, W.SegmentOf(mem, q), SynResult(socketOk, k.connect, k.hello), now);
    } else {
      ForwardedDatagram(e, socketOk, k.setup, k.fail, SentOf(mem, q), now);
    }
    hide W.SegmentOf, W.Readable, SentOf, SegmentEntry, DatagramEntry, DatagramForward, Served, Forward, A.Live;
  }

  lemma ForwardedSegment(e: Entry, seg: Segment, r: SynResult, now: int)
    ensures var e1 := SegmentEntry(e, seg, r, now);
            && e1.conn == Forward(e.env, e.conn, seg, r)
            && (A.Live(e1.conn) ==> e1.tstamp == now) && (!A.Live(e.conn) ==> e1.tstamp == e.tstamp)
  {
    ClosedIsOver(e.env, HandleTcpFwd(e.env, e.conn, seg, r).c);
    hide HandleTcpFwd, CloseConn;
  }

  lemma ForwardedDatagram(e: Entry, socketOk: bool, setup: Option<SockError>, fail: Option<SockError>, m: bytes, now: int)
    ensures var e1 := DatagramEntry(e, socketOk, setup, fail, m, now);
            && e1.conn == DatagramForward(e.env, e.conn, e.key.Transport(), socketOk, setup, fail, m).c
            && (A.Live(e1.conn) ==> e1.tstamp == now) && (!A.Live(e.conn) ==> e1.tstamp == e.tstamp)
  {
    var proto := e.key.Transport();
    DatagramCases(e.env, e.conn, proto, socketOk, setup, fail, m);
    var Outcome(c1, rv1) := DatagramStart(e.env, e.conn, proto, socketOk, setup);
    var Outcome(c2, rv) := if rv1 == 0 then DatagramSent(e.env, c1, proto, fail, m) else Outcome(c1, rv1);
    ClosedIsOver(e.env, c2);
    hide DatagramForward, DatagramStart, DatagramSent, CloseConn;
  }

  lemma ClosedIsOver(env: Env, c: Conn)
    ensures !A.Live(CloseConn(env, c, Error))
  {
  }

  // ------------------------------------------------------------------ as bytes

  /** The message fits in the reply buffer, and is of a kind that is passed on. */
  predicate Fitting(t: Tuple, m: bytes) {
    && P.HeaderLen(t) + (if t.Transport() == Udp then 8 else 0) + |m| <= P.MAX_PACKET
    && (t.Transport() == Icmp ==> EchoMessage(m))
  }

  /** The packet in which it goes to the client of `t`. */
  function DatagramWire(t: Tuple, m: bytes): bytes
    requires t.Valid() && t.Transport() != Tcp && Fitting(t, m)
  {
    if t.Transport() == Udp then P.UdpPacket(t, m) else P.IcmpPacket(t, m)
  }

  /** What a receiver of the packet makes of it: the payload of a UDP packet, or an ICMP message. */
  function ReadBack(packet: bytes): Option<bytes> {
    if |packet| > P.MAX_PACKET then None
    else
      match P.ParsePkt(packet, map[]).r
      case Error(_) => None
      case Packet(q) => if W.Readable(packet, q) then Some(SentOf(packet, q)) else None
  }

  /** `r` is the ICMP message `m` with the echo ID `id` and some checksum. */
  predicate SameEcho(r: bytes, m: bytes, id: bytes) {
    |r| == |m| >= 8 && r[..2] == m[..2] && r[4..6] == id && r[6..] == m[6..]
  }

  /** What the client of `t` reads is the message: for ICMP with the echo ID of the connection in it. */
  predicate Arrives(t: Tuple, packet: bytes, m: bytes) {
    var r := ReadBack(packet);
    r.Some? && if t.Transport() == Udp then r.value == m else SameEcho(r.value, m, t.srcPort)
  }

  lemma ReadAt(packet: bytes, q: Tuple, l4HdrLen: nat, l7Len: nat)
    requires P.AcceptedAs(q, packet, l4HdrLen, l7Len) && (q.Transport() == Udp || (q.Transport() == Icmp && l4HdrLen == 8))
    ensures |packet| == P.HeaderLen(q) + l4HdrLen + l7Len
    ensures ReadBack(packet) == Some(packet[P.HeaderLen(q)..][if q.Transport() == Icmp then 0 else l4HdrLen..])
  {
    hide P.ParsePkt;
    var h := P.HeaderLen(q);
    var k := if q.Transport() == Icmp then 0 else l4HdrLen;
    assert packet[h..][k..] == packet[h + k..|packet|];
    var r := P.Parsed(q, false, false, |packet|, h, l4HdrLen, l7Len);
    assert P.ParsePkt(packet, map[]).r == P.Packet(r) && W.Readable(packet, r);
    assert SentOf(packet, r) == packet[h + k..|packet|];
  }

  lemma DatagramArrives(t: Tuple, m: bytes)
    requires t.Valid() && t.Transport() != Tcp && Fitting(t, m)
    ensures Arrives(t, DatagramWire(t, m), m)
  {
    hide *;
    WireIs(t, m);
    if t.Transport() == Udp {
      UdpArrives(t, m);
    } else {
      IcmpArrives(t, m);
    }
  }

  lemma WireIs(t: Tuple, m: bytes)
    requires t.Valid() && t.Transport() != Tcp && Fitting(t, m)
    ensures t.Transport() == Udp ==>
              t.proto == IPPROTO_UDP && P.HeaderLen(t) + 8 + |m| <= P.MAX_PACKET && DatagramWire(t, m) == P.UdpPacket(t, m)
    ensures t.Transport() != Udp ==>
              && t.Transport() == Icmp && |m| >= 8 && P.IsEcho(m[0]) && P.HeaderLen(t) + |m| <= P.MAX_PACKET
              && DatagramWire(t, m) == P.IcmpPacket(t, m)
  {
    hide P.UdpPacket, P.IcmpPacket;
  }

  lemma UdpArrives(t: Tuple, m: bytes)
    requires t.Valid() && t.proto == IPPROTO_UDP && P.HeaderLen(t) + 8 + |m| <= P.MAX_PACKET
    ensures t.Transport() == Udp && Arrives(t, P.UdpPacket(t, m), m)
  {
    P.UdpRoundTrip(t, m);
    P.UdpFields(t, m);
    hide P.AcceptedAs, P.UdpPacket, ReadBack;
    ReadAt(P.UdpPacket(t, m), t.Swapped(), 8, |m|);
  }

  lemma IcmpArrives(t: Tuple, m: bytes)
    requires t.Valid() && t.Transport() == Icmp && |m| >= 8 && P.IsEcho(m[0]) && P.HeaderLen(t) + |m| <= P.MAX_PACKET
    ensures Arrives(t, P.IcmpPacket(t, m), m)
  {
    P.IcmpRoundTrip(t, m);
    P.IcmpFields(t, m);
    hide P.AcceptedAs, P.IcmpPacket, ReadBack, P.IsEcho;
    var q := P.IcmpReplyTuple(t, P.IsRequest(m[0]));
    var packet := P.IcmpPacket(t, m);
    ReadAt(packet, q, 8, |m| - 8);
    var h := P.HeaderLen(t);
    assert P.HeaderLen(q) == h;
    assert packet[h..][0..] == packet[h..];
  }

  /** In every run on messages that fit, the packets of the log are, as the client of `t` reads them, the messages that recv()
      returned, in order; `t` may be the tuple with the echo ID of the first packet written into it. */
  lemma MessagesArrive(env: Env, t: Tuple, mode: ProxyMode, events: seq<DatagramEvent>, i: nat)
    requires t.Valid() && t.Transport() != Tcp && i < |DatagramRun(env, t.Transport(), NewFor(t, mode), events).log|
    requires var m := DatagramRun(env, t.Transport(), NewFor(t, mode), events).log[i].payload;
             P.HeaderLen(t) + (if t.Transport() == Udp then 8 else 0) + |m| <= P.MAX_PACKET
    ensures var came := AllCame(env, t.Transport(), NewFor(t, mode), events);
            var m := DatagramRun(env, t.Transport(), NewFor(t, mode), events).log[i].payload;
            i < |came| && Fitting(t, m) && Arrives(t, DatagramWire(t, m), came[i])
  {
    RunCarries(env, t, mode, events);
    var c := DatagramRun(env, t.Transport(), NewFor(t, mode), events);
    var came := AllCame(env, t.Transport(), NewFor(t, mode), events);
    assert c.service == ServiceOf(t) && (t.Transport() == Icmp ==> c.service == Echo);
    PayloadAt(c, came, i);
    hide Arrives, DatagramWire, DatagramRun, AllCame, Carries, NewFor;
    DatagramArrives(t, c.log[i].payload);
  }

  lemma PayloadAt(c: Conn, came: seq<bytes>, i: nat)
    requires Shape(c) && i < |c.log|
    requires Payloads(c.log) == came || LastLost(Payloads(c.log), came)
    ensures i < |came| && came[i] == c.log[i].payload && (c.service == Echo ==> EchoMessage(c.log[i].payload))
  {
    assert Payloads(c.log)[i] == c.log[i].payload;
  }
}
