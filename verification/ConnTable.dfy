/** zdtun.c: the connection table as values: what serving, forwarding, purging and looking up make of its entries. */
module ConnTable {
  import opened Words
  import opened Tuples
  import opened TcpProxy
  import opened TcpReadiness
  import opened SocketAccounting
  import D = TcpDownstream
  import P = Packet
  import W = TcpWire

  /** A table entry as a value. */
  datatype Entry = Entry(key: Tuple, tuple: Tuple, tstamp: int, env: Env, conn: Conn)

  predicate CanOpen(numOpen: nat, fd: Option<nat>) {
    numOpen < MAX_NUM_SOCKETS && fd.Some? && fd.value < FD_SETSIZE
  }

  /** A socket can be had while fewer than 128 are open, if its fd fits an fd_set of 1024. */
  lemma SocketLimits(numOpen: nat, fd: Option<nat>)
    ensures CanOpen(numOpen, fd) <==> numOpen < 128 && fd.Some? && fd.value < 1024
  {
  }

  // ------------------------------------------------------------------ UDP and ICMP, and what a packet does to an entry

  /** What recv() on a UDP or ICMP socket returns: an error, a UDP payload, or an ICMP message. */
  datatype Datagram = RecvError(e: SockError) | Message(m: bytes)

  function ServiceOf(t: Tuple): Service {
    if t.Transport() == Icmp then Echo else if t.Transport() == Udp && t.dstPort == [0, 53] then Dns else Plain
  }

  const DNS_PACKET_LEN := 13

  /** DNS_FLAGS_MASK on the flags as a little-endian machine reads them: the top bit of the second byte of the flags. */
  predicate TakenForAnswer(m: bytes)
    requires |m| >= DNS_PACKET_LEN
  {
    (m[2] as int + m[3] as int * 0x100) / 0x8000 % 2 == 1
  }

  /** check_dns_request. */
  function AfterQuery(c: Conn, m: bytes): Conn {
    if c.service == Dns && |m| >= DNS_PACKET_LEN && !TakenForAnswer(m) then c.(dns := (c.dns + 1) % 0x100) else c
  }

  /** check_dns_purge. */
  function AfterAnswer(env: Env, c: Conn, m: bytes): Conn {
    if c.service == Dns && |m| >= DNS_PACKET_LEN && TakenForAnswer(m) && c.dns > 0 then
      var c1 := c.(dns := c.dns - 1);
      if c1.dns == 0 then CloseConn(env, c1, Closed) else c1
    else c
  }

  /** handle_udp_reply and handle_icmp_reply. */
  function DatagramReply(env: Env, c: Conn, d: Datagram): Outcome {
    match d
    case RecvError(e) => Outcome(CloseOnError(env, c, e).c, -1)
    case Message(m) =>
      if c.service == Echo && |m| < P.ICMP_HEADER_LEN then Outcome(CloseConn(env, c, Error), -1)
      else if c.service == Echo && !P.IsEcho(m[0]) then Outcome(CloseConn(env, c, Error), 0)
      else
        var Outcome(c1, rv) := SendToClient(env, c, Reply(c, Kind.Datagram, m));
        Outcome(if rv == 0 then AfterAnswer(env, c1, m) else c1, rv)
  }

  function DatagramSetup(env: Env, c: Conn, proto: Proto, setup: Option<SockError>): Outcome {
    if proto == Udp && setup.Some? then Outcome(CloseOnError(env, c, setup.value).c, -1)
    else Outcome(c.(status := Connected), 0)
  }

  function DatagramOpen(env: Env, c: Conn, proto: Proto, socketOk: bool, setup: Option<SockError>): Outcome {
    if socketOk then DatagramSetup(env, c.(open := true, inRead := true), proto, setup)
    else Outcome(c.(status := if proto == Icmp then SocketError else c.status), -1)
  }

  function DatagramSent(env: Env, c: Conn, proto: Proto, fail: Option<SockError>, m: bytes): Outcome {
    if fail.Some? then Outcome(CloseOnError(env, c, fail.value).c, if proto == Icmp then -1 else 0)
    else Outcome(AfterQuery(c.(requests := c.requests + [m]), m), 0)
  }

  function DatagramStart(env: Env, c: Conn, proto: Proto, socketOk: bool, setup: Option<SockError>): Outcome {
    if c.status == New then DatagramOpen(env, c, proto, socketOk, setup) else Outcome(c, 0)
  }

  function DatagramForward(env: Env, c: Conn, proto: Proto, socketOk: bool, setup: Option<SockError>, fail: Option<SockError>,
                           m: bytes): Outcome {
    if Dead(c.status) then Outcome(c, 0)
    else
      var Outcome(c1, rv1) := DatagramStart(env, c, proto, socketOk, setup);
      var Outcome(c2, rv) := if rv1 == 0 then DatagramSent(env, c1, proto, fail, m) else Outcome(c1, rv1);
      Outcome(if rv != 0 then CloseConn(env, c2, Error) else c2, rv)
  }

  lemma DatagramCases(env: Env, c: Conn, proto: Proto, socketOk: bool, setup: Option<SockError>, fail: Option<SockError>, m: bytes)
    ensures DatagramForward(env, c, proto, socketOk, setup, fail, m) ==
            if Dead(c.status) then Outcome(c, 0)
            else
              var Outcome(c1, rv1) := DatagramStart(env, c, proto, socketOk, setup);
              var Outcome(c2, rv) := if rv1 == 0 then DatagramSent(env, c1, proto, fail, m) else Outcome(c1, rv1);
              Outcome(if rv != 0 then CloseConn(env, c2, Error) else c2, rv)
  {
    hide DatagramStart, DatagramSent, CloseConn;
  }

  /** The tuple is rewritten by the first packet of an ICMP connection, if it gets a socket. */
  predicate Rewrites(status: Status, proto: Proto, socketOk: bool) {
    status == New && proto == Icmp && socketOk
  }

  /** What zdtun_forward returns for a segment. */
  function ForwardRv(env: Env, c: Conn, seg: Segment, r: SynResult): int {
    if Dead(c.status) then 0 else HandleTcpFwd(env, c, seg, r).rv
  }

  /** The answers of the kernel when a packet is forwarded: socket(), connect(), bind() and send(). */
  datatype Kernel = Kernel(fd: Option<nat>, connect: ConnectResult, hello: Option<SockError>, setup: Option<SockError>,
                           fail: Option<SockError>)

  function SegmentEntry(e: Entry, seg: Segment, r: SynResult, now: int): Entry {
    var ok := ForwardRv(e.env, e.conn, seg, r) == 0 && !Dead(e.conn.status);
    e.(conn := Forward(e.env, e.conn, seg, r), tstamp := if ok then now else e.tstamp)
  }

  function DatagramEntry(e: Entry, socketOk: bool, setup: Option<SockError>, fail: Option<SockError>, m: bytes, now: int): Entry {
    var Outcome(c, rv) := DatagramForward(e.env, e.conn, e.key.Transport(), socketOk, setup, fail, m);
    e.(conn := c, tstamp := if rv == 0 && !Dead(e.conn.status) then now else e.tstamp,
       tuple := if Rewrites(e.conn.status, e.key.Transport(), socketOk) then e.tuple.(srcPort := e.key.EchoId()) else e.tuple)
  }

  /** What is sent of a packet: the payload, or the whole message of an ICMP packet. */
  function SentOf(mem: bytes, q: P.Parsed): bytes
    requires W.Readable(mem, q)
  {
    mem[q.ipHdrLen + if q.tuple.Transport() == Icmp then 0 else q.l4HdrLen..q.ipHdrLen + q.l4HdrLen + q.l7Len]
  }

  /** What a packet makes of the entry it is forwarded on. */
  function AfterPacket(e: Entry, mem: bytes, q: P.Parsed, socketOk: bool, k: Kernel, now: int): Entry
    requires W.Readable(mem, q)
  {
    if q.tuple.Transport() == Tcp then SegmentEntry(e, W.SegmentOf(mem, q), SynResult(socketOk, k.connect, k.hello), now)
    else DatagramEntry(e, socketOk, k.setup, k.fail, SentOf(mem, q), now)
  }

  lemma AfterPacketCases(e: Entry, mem: bytes, q: P.Parsed, socketOk: bool, k: Kernel, now: int)
    requires W.Readable(mem, q)
    ensures AfterPacket(e, mem, q, socketOk, k, now) ==
            if q.tuple.Transport() == Tcp then SegmentEntry(e, W.SegmentOf(mem, q), SynResult(socketOk, k.connect, k.hello), now)
            else DatagramEntry(e, socketOk, k.setup, k.fail, SentOf(mem, q), now)
  {
  }

  /** A connection as it is entered in the table. */
  function NewFor(t: Tuple, mode: ProxyMode): Conn {
    NewConn(t.Transport() == Tcp, mode).(service := ServiceOf(t))
  }

  // ------------------------------------------------------------------ what holds of every entry

  /** The state of a TCP connection is one that a run of the machine of TcpProxy leads to, so what is proved of those runs
      holds of it. */
  ghost predicate Reached(env: Env, c: Conn) {
    exists mode, events :: Reaches(env, mode, events, c)
  }

  predicate Reaches(env: Env, mode: ProxyMode, events: seq<Event>, c: Conn) {
    D.PossibleRun(env, NewConn(true, mode), events) && c == Run(env, NewConn(true, mode), events)
  }

  lemma ReachedNew(env: Env, mode: ProxyMode)
    ensures Reached(env, NewConn(true, mode))
  {
    assert Reaches(env, mode, [], NewConn(true, mode));
  }

  lemma ReachedStep(env: Env, c: Conn, e: Event)
    requires Reached(env, c) && D.Possible(c, e)
    ensures Reached(env, Step(env, c, e))
  {
    hide Step, D.Possible, NewConn;
    var mode, events :| Reaches(env, mode, events, c);
    var longer := events + [e];
    assert longer[..|events|] == events;
    assert forall i :: 0 <= i < |longer| ==> longer[..i] == events[..i];
    RunStep(env, NewConn(true, mode), longer);
    assert Reaches(env, mode, longer, Step(env, c, e));
  }

  /** What holds of every connection between two operations. */
  ghost predicate FitState(env: Env, c: Conn) {
    if c.isTcp then Ready(c) && Reached(env, c)
    else
      && (c.status == New || Dead(c.status) ==> !c.open)
      && (c.status == Connected ==> c.open)
      && c.status != Connecting
      && (!c.open ==> !c.inRead && !c.inWrite)
  }

  /** The tuple of a packet that is no fragment: one of the ports of ICMP is 0. */
  predicate FromPacket(t: Tuple) {
    t.Transport() == Icmp ==> t.srcPort == [0, 0] || t.dstPort == [0, 0]
  }

  /** An entry's tuple is the one it was entered under, or that with the echo ID written over the source port. */
  predicate Shaped(e: Entry) {
    && e.conn.isTcp == (e.key.Transport() == Tcp) && FromPacket(e.key)
    && (e.tuple == e.key || (e.key.Transport() == Icmp && e.tuple == e.key.Rewritten()))
  }

  ghost predicate Fits(e: Entry) {
    FitState(e.env, e.conn) && Shaped(e)
  }

  /** Two entries found under their own tuples have different tuples. */
  predicate UniqueTuples(es: seq<Entry>) {
    forall i, j :: 0 <= i < j < |es| && es[i].tuple == es[i].key && es[j].tuple == es[j].key ==> es[i].key != es[j].key
  }

  ghost predicate AllFit(es: seq<Entry>) {
    forall i :: 0 <= i < |es| ==> Fits(es[i])
  }

  lemma ReachesRun(env: Env, mode: ProxyMode, events: seq<Event>, c: Conn)
    requires Reaches(env, mode, events, c)
    ensures D.PossibleRun(env, NewConn(true, mode), events) && c == Run(env, NewConn(true, mode), events) && D.Numbered(c)
  {
    D.RunIsDown(env, mode, events);
    hide D.Numbered, D.Proper;
  }

  lemma FitEntry(es: seq<Entry>, i: nat)
    requires AllFit(es) && i < |es|
    ensures Fits(es[i])
  {
  }

  lemma WatchedIsReported(reported: set<nat>, watched: set<nat>, sock: Option<nat>)
    requires reported <= watched
    ensures Has(reported, sock) ==> Has(watched, sock)
  {
  }

  /** The kernel's answers for one connection. */
  datatype Answer = Answer(recv: RecvResult, fail: Option<SockError>, sends: nat -> SendResult, async: AsyncResult,
                           hello: Option<SockError>, datagram: Datagram)

  /** What zdtun_handle_fd makes of a connection that select() reported readable or writable. */
  function Served(env: Env, c: Conn, rd: bool, wr: bool, a: Answer): Outcome {
    if !c.open then Outcome(c, 0)
    else if rd then (if c.isTcp then Readable(env, c, a.recv, a.fail) else DatagramReply(env, c, a.datagram))
    else if wr && c.isTcp then Writable(env, c, a.sends, a.async, a.hello)
    else Outcome(c, 0)
  }

  /** When the last packet came, once a message of the server was handled: an ICMP message counts whether or not the client
      takes it, others only if it does. */
  function ReplyAt(env: Env, c: Conn, d: Datagram, now: int, was: int): int {
    if d.Message? && (if c.service == Echo then |d.m| >= P.ICMP_HEADER_LEN && P.IsEcho(d.m[0]) else env.accepts(c.sends)) then now
    else was
  }

  function ServedAt(env: Env, c: Conn, rd: bool, wr: bool, a: Answer, now: int, was: int): int {
    if !c.open then was
    else if rd then (if c.isTcp then now else ReplyAt(env, c, a.datagram, now, was))
    else if wr && c.isTcp && c.queue == [] && a.async.AsyncDone? then now
    else was
  }

  /** What zdtun_handle_fd makes of a table entry. */
  function ServedEntry(e: Entry, rd: bool, wr: bool, a: Answer, now: int): Entry {
    e.(conn := Served(e.env, e.conn, rd, wr, a).c, tstamp := ServedAt(e.env, e.conn, rd, wr, a, now, e.tstamp))
  }

  lemma DatagramCloses(env: Env, c: Conn, st: Status)
    requires FitState(env, c) && !c.isTcp
    ensures FitState(env, CloseConn(env, c, st))
  {
  }

  lemma DatagramFits(env: Env, c: Conn, d: Datagram)
    requires FitState(env, c) && !c.isTcp && c.open
    ensures FitState(env, DatagramReply(env, c, d).c)
  {
    hide CloseConn, SendToClient, P.IsEcho;
    match d
    case RecvError(e) => DatagramCloses(env, c, StatusOf(e));
    case Message(m) =>
      DatagramCloses(env, c, Error);
      var p := Reply(c, Kind.Datagram, m);
      DatagramSends(env, c, p);
      AnswerFits(env, SendToClient(env, c, p).c, m);
  }

  lemma AnswerFits(env: Env, c: Conn, m: bytes)
    requires FitState(env, c) && !c.isTcp
    ensures FitState(env, AfterAnswer(env, c, m))
  {
    hide CloseConn, TakenForAnswer;
    if c.dns > 0 {
      DatagramCloses(env, c.(dns := c.dns - 1), Closed);
    }
  }

  lemma DatagramSends(env: Env, c: Conn, p: Packet)
    requires FitState(env, c) && !c.isTcp
    ensures FitState(env, SendToClient(env, c, p).c) && !SendToClient(env, c, p).c.isTcp
  {
    if env.accepts(c.sends) {
      assert SendToClient(env, c, p).c == Accepted(c, p);
    } else {
      assert SendToClient(env, c, p).c == Refused(c);
    }
  }

  /** select() reported only what it was asked for, and recv() returned no more than it was asked for. */
  predicate Reported(c: Conn, rd: bool, wr: bool, a: Answer) {
    (rd ==> c.inRead && (c.isTcp && c.open ==> RecvWithin(c, a.recv))) && (wr ==> c.inWrite)
  }

  predicate RecvFits(c: Conn, a: Answer) {
    c.isTcp ==> RecvWithin(c, a.recv)
  }

  lemma ServedFits(env: Env, c: Conn, rd: bool, wr: bool, a: Answer)
    requires FitState(env, c) && Reported(c, rd, wr, a) && Served(env, c, rd, wr, a).c.isTcp == c.isTcp
    ensures FitState(env, Served(env, c, rd, wr, a).c)
  {
    hide Ready, Reached, Step, DatagramReply, Served;
    if c.isTcp {
      ServedIsStep(env, c, rd, wr, a);
      var e := if rd then CanRead(a.recv, a.fail) else CanWrite(a.sends, a.async, a.hello);
      if rd || wr {
        StepKeepsReady(env, c, e);
        ReachedStep(env, c, e);
      }
    } else {
      ServedDatagram(env, c, rd, wr, a);
      if c.open && rd {
        DatagramFits(env, c, a.datagram);
      }
    }
  }

  /** What zdtun_handle_fd does to a TCP connection is a step of the machine that the properties of TcpReadiness,
      TcpDownstream, TcpUpstream, TcpFlow and TcpSocks5 are about, or nothing. */
  lemma ServedIsStep(env: Env, c: Conn, rd: bool, wr: bool, a: Answer)
    requires c.isTcp && (rd ==> c.inRead) && (wr ==> c.inWrite)
    ensures Served(env, c, rd, wr, a).c ==
            if rd then Step(env, c, CanRead(a.recv, a.fail))
            else if wr then Step(env, c, CanWrite(a.sends, a.async, a.hello))
            else c
  {
    hide Readable, Writable;
  }

  lemma ServedDatagram(env: Env, c: Conn, rd: bool, wr: bool, a: Answer)
    requires !c.isTcp
    ensures Served(env, c, rd, wr, a).c == if c.open && rd then DatagramReply(env, c, a.datagram).c else c
  {
    hide DatagramReply;
  }

  function FlagsOf(s: Socks, fds: set<nat>): (r: seq<bool>)
    ensures |r| == |s|
  {
    seq(|s|, i requires 0 <= i < |s| => Has(fds, s[i]))
  }

  /** The first `served` connections of `es` were served, each from its own state, and the others are as they were; only
      the last one served may have reported `rv`. */
  ghost predicate Progress(es: seq<Entry>, es1: seq<Entry>, rd: seq<bool>, wr: seq<bool>, answers: seq<Answer>, now: int,
                           served: nat, rv: int) {
    && |es| == |es1| == |rd| == |wr| == |answers| && served <= |es|
    && (forall j :: 0 <= j < served ==> es1[j] == ServedEntry(es[j], rd[j], wr[j], answers[j], now))
    && (forall j :: 0 <= j < served - 1 ==> Served(es[j].env, es[j].conn, rd[j], wr[j], answers[j]).rv == 0)
    && (forall j :: served <= j < |es| ==> es1[j] == es[j])
    && rv == if served == 0 then 0
             else
               var j := served - 1;
               Served(es[j].env, es[j].conn, rd[j], wr[j], answers[j]).rv
  }

  lemma NoProgress(es: seq<Entry>, rd: seq<bool>, wr: seq<bool>, answers: seq<Answer>, now: int)
    requires |es| == |rd| == |wr| == |answers|
    ensures Progress(es, es, rd, wr, answers, now, 0, 0)
  {
    hide Served;
  }

  lemma Rest(es: seq<Entry>, es1: seq<Entry>, rd: seq<bool>, wr: seq<bool>, answers: seq<Answer>, now: int, served: nat)
    requires Progress(es, es1, rd, wr, answers, now, served, 0) && served < |es|
    ensures es1[served] == es[served]
  {
    hide Served, ServedEntry;
  }

  lemma ProgressStep(es: seq<Entry>, es1: seq<Entry>, rd: seq<bool>, wr: seq<bool>, answers: seq<Answer>, now: int, served: nat,
                     e: Entry, rv: int)
    requires Progress(es, es1, rd, wr, answers, now, served, 0) && served < |es|
    requires e == ServedEntry(es[served], rd[served], wr[served], answers[served], now)
    requires rv == Served(es[served].env, es[served].conn, rd[served], wr[served], answers[served]).rv
    ensures Progress(es, es1[served := e], rd, wr, answers, now, served + 1, rv)
  {
    hide Served, ServedEntry;
  }

  function Without<T>(s: seq<T>, i: nat): seq<T>
    requires i < |s|
  {
    s[..i] + s[i + 1..]
  }

  lemma DatagramForwardFits(env: Env, c: Conn, proto: Proto, socketOk: bool, setup: Option<SockError>, fail: Option<SockError>,
                            m: bytes)
    requires FitState(env, c) && !c.isTcp
    ensures FitState(env, DatagramForward(env, c, proto, socketOk, setup, fail, m).c)
  {
    DatagramCases(env, c, proto, socketOk, setup, fail, m);
    StartFits(env, c, proto, socketOk, setup);
    var Outcome(c1, rv1) := DatagramStart(env, c, proto, socketOk, setup);
    if rv1 == 0 {
      SentFits(env, c1, proto, fail, m);
    }
    hide CloseConn, DatagramForward, DatagramStart, DatagramSent, FitState;
    var Outcome(c2, rv) := if rv1 == 0 then DatagramSent(env, c1, proto, fail, m) else Outcome(c1, rv1);
    DatagramEnds(env, c2, Error);
  }

  lemma SentFits(env: Env, c: Conn, proto: Proto, fail: Option<SockError>, m: bytes)
    requires FitState(env, c) && !c.isTcp
    ensures var c1 := DatagramSent(env, c, proto, fail, m).c;
            FitState(env, c1) && !c1.isTcp && (Dead(c1.status) ==> !c1.open && !c1.inRead && !c1.inWrite)
  {
    hide CloseConn;
    if fail.Some? {
      DatagramEnds(env, c, StatusOf(fail.value));
      ClosedHoldsNothing(env, c, StatusOf(fail.value));
    }
  }

  lemma ClosedHoldsNothing(env: Env, c: Conn, st: Status)
    requires !c.isTcp && (Dead(c.status) ==> !c.open && !c.inRead && !c.inWrite)
    ensures var c1 := CloseConn(env, c, st); !c1.open && !c1.inRead && !c1.inWrite
  {
  }

  lemma StartFits(env: Env, c: Conn, proto: Proto, socketOk: bool, setup: Option<SockError>)
    requires FitState(env, c) && !c.isTcp
    ensures var Outcome(c1, rv) := DatagramStart(env, c, proto, socketOk, setup);
            && !c1.isTcp && (Dead(c1.status) ==> !c1.open && !c1.inRead && !c1.inWrite) && (rv == 0 ==> FitState(env, c1))
  {
    hide CloseConn;
    var c0 := c.(open := true, inRead := true);
    if setup.Some? && c.status == New {
      DatagramEnds(env, c0, StatusOf(setup.value));
    }
  }

  /** A connection without TCP part that is closed has no socket, whatever state it was in. */
  lemma DatagramEnds(env: Env, c: Conn, st: Status)
    requires !c.isTcp && (Dead(c.status) ==> !c.open && !c.inRead && !c.inWrite)
    ensures var c1 := CloseConn(env, c, st); FitState(env, c1) && !c1.isTcp && Dead(c1.status) && !c1.open
  {
  }

  lemma ClosedFits(env: Env, c: Conn, st: Status)
    requires FitState(env, c)
    ensures var c1 := CloseConn(env, c, st); FitState(env, c1) && !c1.open
  {
    if c.isTcp {
      ClosingIsStep(env, c, st);
      hide Reached;
      ReachedStep(env, c, Close(st));
      ReadyMayClose(c);
      CloseEnds(env, c, st);
      ClosedKind(env, c, st);
    } else {
      DatagramEnds(env, c, st);
    }
  }

  lemma ClosingIsStep(env: Env, c: Conn, st: Status)
    ensures Step(env, c, Close(st)) == CloseConn(env, c, st) && D.Possible(c, Close(st))
  {
  }

  lemma ForwardFits(env: Env, c: Conn, seg: Segment, r: SynResult)
    requires FitState(env, c) && c.isTcp
    ensures Ready(Forward(env, c, seg, r)) && Reached(env, Forward(env, c, seg, r))
  {
    hide Ready, Reached;
    StepKeepsReady(env, c, Client(seg, r));
    ReachedStep(env, c, Client(seg, r));
  }

  lemma ClosedKind(env: Env, c: Conn, st: Status)
    ensures CloseConn(env, c, st).isTcp == c.isTcp
  {
  }

  lemma WithoutFits(es: seq<Entry>, i: nat)
    requires i < |es| && UniqueTuples(es) && AllFit(es)
    ensures UniqueTuples(Without(es, i)) && AllFit(Without(es, i))
  {
    hide Fits;
  }

  // ------------------------------------------------------------------ purge

  const TCP_TIMEOUT_SEC := 60
  const UDP_TIMEOUT_SEC := 30
  const ICMP_TIMEOUT_SEC := 5

  function Timeout(proto: Proto): nat {
    match proto
    case Tcp => TCP_TIMEOUT_SEC
    case Udp => UDP_TIMEOUT_SEC
    case Icmp => ICMP_TIMEOUT_SEC
    case Other => 0
  }

  predicate Expired(e: Entry, now: int) {
    Dead(e.conn.status) || now >= Timeout(e.key.Transport()) + e.tstamp
  }

  function Keep(es: seq<Entry>, now: int): (r: seq<bool>)
    ensures |r| == |es|
  {
    seq(|es|, i requires 0 <= i < |es| => !Expired(es[i], now))
  }

  /** The elements whose flag is set, in order. */
  function Filter<T>(s: seq<T>, keep: seq<bool>): seq<T>
    requires |s| == |keep|
  {
    if s == [] then []
    else Filter(s[..|s| - 1], keep[..|s| - 1]) + if keep[|s| - 1] then [s[|s| - 1]] else []
  }

  function CountKept(keep: seq<bool>): nat {
    if keep == [] then 0 else CountKept(keep[..|keep| - 1]) + if keep[|keep| - 1] then 1 else 0
  }

  lemma {:induction false} FilterLength<T>(s: seq<T>, keep: seq<bool>)
    requires |s| == |keep|
    ensures |Filter(s, keep)| == CountKept(keep)
  {
    if s != [] {
      FilterLength(s[..|s| - 1], keep[..|s| - 1]);
    }
  }

  /** The first `n` elements of `all` were filtered. */
  ghost predicate Swept<T>(cur: seq<T>, all: seq<T>, keep: seq<bool>, n: nat) {
    n <= |all| == |keep| && cur == Filter(all[..n], keep[..n]) + all[n..]
  }

  lemma SweptStart<T>(all: seq<T>, keep: seq<bool>)
    requires |all| == |keep|
    ensures Swept(all, all, keep, 0) && CountKept(keep[..0]) == 0
  {
  }

  lemma FilterStep<T>(all: seq<T>, keep: seq<bool>, n: nat)
    requires |all| == |keep| && n < |all|
    ensures Filter(all[..n + 1], keep[..n + 1]) == Filter(all[..n], keep[..n]) + if keep[n] then [all[n]] else []
    ensures CountKept(keep[..n + 1]) == CountKept(keep[..n]) + if keep[n] then 1 else 0
  {
    assert all[..n + 1][..n] == all[..n] && keep[..n + 1][..n] == keep[..n];
  }

  lemma SweptStep<T>(cur: seq<T>, all: seq<T>, keep: seq<bool>, n: nat, k: nat)
    requires Swept(cur, all, keep, n) && k == CountKept(keep[..n]) && k < |cur|
    ensures n < |all| && cur[k] == all[n]
    ensures keep[n] ==> Swept(cur, all, keep, n + 1) && CountKept(keep[..n + 1]) == k + 1
    ensures !keep[n] ==> Swept(Without(cur, k), all, keep, n + 1) && CountKept(keep[..n + 1]) == k
  {
    FilterLength(all[..n], keep[..n]);
    FilterStep(all, keep, n);
    hide Filter, CountKept;
    var f := Filter(all[..n], keep[..n]);
    if keep[n] {
      assert f + all[n..] == f + [all[n]] + all[n + 1..];
    } else {
      assert Without(f + all[n..], |f|) == f + all[n + 1..];
    }
  }

  lemma SweptEnd<T>(cur: seq<T>, all: seq<T>, keep: seq<bool>, n: nat, k: nat)
    requires Swept(cur, all, keep, n) && k == CountKept(keep[..n]) && k >= |cur|
    ensures cur == Filter(all, keep)
  {
    FilterLength(all[..n], keep[..n]);
    hide Filter, CountKept;
    assert n == |all| && all[..n] == all && keep[..n] == keep;
  }

  lemma KeepAt(es: seq<Entry>, now: int, n: nat)
    requires n < |es|
    ensures Keep(es, now)[n] == !Expired(es[n], now)
  {
  }

  ghost predicate Within<T>(s: seq<T>, t: seq<T>) {
    forall i :: 0 <= i < |s| ==> s[i] in t
  }

  lemma WithinSelf<T>(s: seq<T>)
    ensures Within(s, s)
  {
  }

  lemma WithinMembers<T>(s: seq<T>, t: seq<T>)
    requires Within(s, t)
    ensures forall i :: 0 <= i < |s| ==> s[i] in t
  {
  }

  lemma WithinOrder<T>(s: seq<T>, t: seq<T>)
    requires multiset(s) == multiset(t)
    ensures Within(s, t)
  {
    SameMembers(s, t);
  }

  lemma WithinTwice<T>(s: seq<T>, t: seq<T>, u: seq<T>)
    requires Within(s, t) && Within(t, u)
    ensures Within(s, u)
  {
  }

  lemma WithinWithout<T>(s: seq<T>, t: seq<T>, k: nat)
    requires Within(s, t) && k < |s|
    ensures s[k] in t && Within(Without(s, k), t)
  {
  }

  function Insert<T>(s: seq<T>, at: nat, x: T): seq<T>
    requires at <= |s|
  {
    s[..at] + [x] + s[at..]
  }

  /** After the last entry that is not later than `t`. */
  function Position(es: seq<Entry>, t: int): (at: nat)
    ensures at <= |es|
  {
    if es == [] || es[|es| - 1].tstamp <= t then |es| else Position(es[..|es| - 1], t)
  }

  lemma PositionStep(es: seq<Entry>, t: int)
    ensures Position(es, t) == if es == [] || es[|es| - 1].tstamp <= t then |es| else Position(es[..|es| - 1], t)
  {
  }

  /** The entries by time of the last packet; equal times stay in order. */
  function ByTime(es: seq<Entry>): (r: seq<Entry>)
    ensures |r| == |es|
  {
    if es == [] then []
    else
      var r := ByTime(es[..|es| - 1]);
      var e := es[|es| - 1];
      Insert(r, Position(r, e.tstamp), e)
  }

  lemma ByTimeStep(es: seq<Entry>, n: nat)
    requires n < |es|
    ensures var r := ByTime(es[..n]); ByTime(es[..n + 1]) == Insert(r, Position(r, es[n].tstamp), es[n])
  {
    assert es[..n + 1][..n] == es[..n];
  }

  function OpenCount(es: seq<Entry>): nat {
    if es == [] then 0 else OpenCount(es[..|es| - 1]) + if es[|es| - 1].conn.open then 1 else 0
  }

  lemma {:induction false} OpenCountBound(es: seq<Entry>)
    ensures OpenCount(es) <= |es|
    ensures (forall i :: 0 <= i < |es| ==> es[i].conn.open) ==> OpenCount(es) == |es|
  {
    if es != [] {
      OpenCountBound(es[..|es| - 1]);
    }
  }

  /** The entries zdtun_purge_expired keeps: those that are neither closed nor idle for too long, and of these, when 128
      sockets are still open, all but the `open - 96` with the oldest last packet. */
  function Purged(es: seq<Entry>, now: int): seq<Entry> {
    var live := Filter(es, Keep(es, now));
    OpenCountBound(live);
    if OpenCount(live) < MAX_NUM_SOCKETS then live else ByTime(live)[OpenCount(live) - NUM_SOCKETS_AFTER_PURGE..]
  }

  lemma PurgedCases(es: seq<Entry>, now: int)
    ensures var live := Filter(es, Keep(es, now));
            && OpenCount(live) <= |live| == |ByTime(live)|
            && Purged(es, now) == if OpenCount(live) < MAX_NUM_SOCKETS then live
                                  else ByTime(live)[OpenCount(live) - NUM_SOCKETS_AFTER_PURGE..]
  {
    hide Filter, Keep, ByTime, OpenCount;
    OpenCountBound(Filter(es, Keep(es, now)));
  }

  lemma OpenFits(es: seq<Entry>)
    ensures OpenCount(es) <= |es| == |ByTime(es)|
  {
    hide OpenCount, ByTime;
    OpenCountBound(es);
  }

  lemma PurgeSizes()
    ensures MAX_NUM_SOCKETS == 128 && NUM_SOCKETS_AFTER_PURGE == 96
  {
  }

  lemma {:induction false} FilterIn<T>(s: seq<T>, keep: seq<bool>)
    requires |s| == |keep|
    ensures forall x :: x in Filter(s, keep) ==> x in s
  {
    if s != [] {
      FilterIn(s[..|s| - 1], keep[..|s| - 1]);
    }
  }

  lemma SameMembers<T>(s: seq<T>, t: seq<T>)
    requires multiset(s) == multiset(t)
    ensures forall x :: x in s <==> x in t
  {
    forall x
      ensures x in s <==> x in t
    {
      assert x in s <==> x in multiset(s);
      assert x in t <==> x in multiset(t);
    }
  }

  lemma DropNone<T>(s: seq<T>)
    ensures s[0..] == s
  {
  }

  lemma DropOne<T>(s: seq<T>, n: nat)
    requires n < |s|
    ensures Without(s[n..], 0) == s[n + 1..]
  {
  }

  lemma WithoutShorter<T>(s: seq<T>)
    requires s != []
    ensures |Without(s, 0)| < |s|
  {
  }

  // ------------------------------------------------------------------ lookup

  function FindEntry(es: seq<Entry>, t: Tuple): (r: Option<nat>)
    ensures r.Some? ==> r.value < |es| && es[r.value].key == t && es[r.value].tuple == t
    ensures r.None? ==> forall i :: 0 <= i < |es| ==> es[i].key != t || es[i].tuple != t
  {
    if es == [] then None
    else if es[0].key == t && es[0].tuple == t then Some(0)
    else
      var f := FindEntry(es[1..], t);
      if f.Some? then Some(f.value + 1) else None
  }

  lemma {:induction false} FirstFound(es: seq<Entry>, t: Tuple, i: nat)
    requires i < |es| && es[i].key == t && es[i].tuple == t
    requires forall j :: 0 <= j < i ==> es[j].key != t || es[j].tuple != t
    ensures FindEntry(es, t) == Some(i)
  {
    if i > 0 {
      FirstFound(es[1..], t, i - 1);
    }
  }

  lemma NoneFound(es: seq<Entry>, t: Tuple)
    requires forall j :: 0 <= j < |es| ==> es[j].key != t || es[j].tuple != t
    ensures FindEntry(es, t) == None
  {
    hide FindEntry;
  }

  lemma FoundEntry(es: seq<Entry>, t: Tuple)
    ensures var f := FindEntry(es, t);
            f.Some? ==> f.value < |es| && es[f.value].key == t && es[f.value].tuple == t
  {
  }

  /** The packet is an echo reply that opens its connection, with an echo ID that is not 0. */
  predicate OpensByReply(e: Entry, mem: bytes, q: P.Parsed, socketOk: bool)
    requires W.Readable(mem, q)
  {
    && Rewrites(e.conn.status, q.tuple.Transport(), socketOk)
    && !P.IsRequest(mem[q.ipHdrLen]) && W.EchoId(mem, q) != [0, 0]
  }

  /** An entry keeps its tuple when a packet is forwarded on it, if and only if that is not an echo reply opening the
      connection under an echo ID other than 0. */
  lemma TupleKept(e: Entry, mem: bytes, q: P.Parsed, socketOk: bool, k: Kernel, now: int, n: nat, ports: P.Ports)
    requires W.Arrived(mem, n, ports, q) && e.key == q.tuple && (e.conn.status == New ==> e.tuple == e.key)
    ensures W.Readable(mem, q)
    ensures var e1 := AfterPacket(e, mem, q, socketOk, k, now);
            && e1.key == e.key && (e1.tuple == e.tuple <==> !OpensByReply(e, mem, q, socketOk))
            && (OpensByReply(e, mem, q, socketOk) ==> e1.tuple == e.key.Rewritten() != e.key)
  {
    W.ArrivedIsReadable(mem, n, ports, q);
    if q.tuple.Transport() == Icmp {
      W.EchoIdInTuple(mem, n, ports, q);
    }
    hide W.Arrived, W.SegmentOf, Forward, ForwardRv, DatagramForward, P.IsRequest;
  }

  /** A connection is found again under the tuple of a packet forwarded on it, if and only if that packet is not an echo
      reply opening it. */
  lemma FoundAgain(es: seq<Entry>, i: nat, mem: bytes, q: P.Parsed, socketOk: bool, k: Kernel, now: int, n: nat, ports: P.Ports)
    requires UniqueTuples(es) && i < |es| && es[i].tuple == es[i].key == q.tuple && W.Arrived(mem, n, ports, q)
    ensures W.Readable(mem, q)
    ensures FindEntry(es[i := AfterPacket(es[i], mem, q, socketOk, k, now)], q.tuple) == Some(i) <==>
              !OpensByReply(es[i], mem, q, socketOk)
  {
    TupleKept(es[i], mem, q, socketOk, k, now, n, ports);
    hide FindEntry, AfterPacket, W.Arrived, OpensByReply;
    if !OpensByReply(es[i], mem, q, socketOk) {
      FirstFound(es[i := AfterPacket(es[i], mem, q, socketOk, k, now)], q.tuple, i);
    }
  }

  // ------------------------------------------------------------------ whether the tuples are distinct

  predicate DistinctTuples(es: seq<Entry>) {
    forall i, j :: 0 <= i < j < |es| ==> es[i].tuple != es[j].tuple
  }

  /** Two echo replies with the same tuple each opened a connection. */
  predicate Doubled(es: seq<Entry>) {
    exists i, j :: 0 <= i < j < |es| && es[i].key == es[j].key && es[i].tuple != es[i].key && es[j].tuple != es[j].key
  }

  lemma TwoTuples(d: Entry, e: Entry)
    requires Shaped(d) && Shaped(e)
    ensures d.tuple == e.tuple <==> d.key == e.key && (d.tuple == d.key <==> e.tuple == e.key)
  {
    RewrittenPorts(d);
    RewrittenPorts(e);
  }

  /** A rewritten tuple has the echo ID in both ports, and none of the tuples packets come with has that. */
  lemma RewrittenPorts(e: Entry)
    requires Shaped(e)
    ensures e.tuple != e.key ==>
              && e.tuple.Transport() == Icmp && e.tuple.srcPort == e.tuple.dstPort != [0, 0]
              && e.key == e.tuple.(srcPort := [0, 0])
    ensures e.tuple == e.key && e.tuple.Transport() == Icmp ==> e.tuple.srcPort == [0, 0] || e.tuple.dstPort == [0, 0]
  {
  }

  /** In every table the tuples are pairwise distinct if and only if no two connections were opened by echo replies with
      the same tuple. */
  lemma DistinctUnlessDoubled(es: seq<Entry>)
    requires UniqueTuples(es) && AllFit(es)
    ensures DistinctTuples(es) <==> !Doubled(es)
  {
    hide FitState, Shaped;
    forall i, j | 0 <= i < j < |es|
      ensures es[i].tuple == es[j].tuple <==> es[i].key == es[j].key && es[i].tuple != es[i].key && es[j].tuple != es[j].key
    {
      assert Fits(es[i]) && Fits(es[j]);
      TwoTuples(es[i], es[j]);
    }
  }

  /** Forwarding a packet keeps the tuples distinct if and only if it is not an echo reply that opens a connection while
      one opened by an echo reply with the same tuple is in the table. */
  lemma ForwardKeepsDistinct(es: seq<Entry>, i: nat, mem: bytes, q: P.Parsed, socketOk: bool, k: Kernel, now: int, n: nat,
                             ports: P.Ports)
    requires AllFit(es) && i < |es| && es[i].tuple == es[i].key == q.tuple && W.Arrived(mem, n, ports, q) && DistinctTuples(es)
    ensures W.Readable(mem, q)
    ensures DistinctTuples(es[i := AfterPacket(es[i], mem, q, socketOk, k, now)]) <==>
              !(OpensByReply(es[i], mem, q, socketOk) &&
                exists j :: 0 <= j < |es| && j != i && es[j].key == q.tuple && es[j].tuple != es[j].key)
  {
    TupleKept(es[i], mem, q, socketOk, k, now, n, ports);
    assert Fits(es[i]);
    assert OpensByReply(es[i], mem, q, socketOk) ==> q.tuple.Transport() == Icmp;
    hide AfterPacket, W.Arrived, OpensByReply, FitState;
    var e := AfterPacket(es[i], mem, q, socketOk, k, now);
    var es1 := es[i := e];
    if OpensByReply(es[i], mem, q, socketOk) {
      var x := es[i].(tuple := q.tuple.Rewritten());
      assert Shaped(x) && x.tuple == e.tuple;
      hide Shaped;
      forall j | 0 <= j < |es| && j != i
        ensures es[j].tuple == e.tuple <==> es[j].key == q.tuple && es[j].tuple != es[j].key
      {
        assert Fits(es[j]);
        TwoTuples(es[j], x);
      }
      if j :| 0 <= j < |es| && j != i && es[j].tuple == e.tuple {
        assert es1[j].tuple == es1[i].tuple;
      }
    }
  }

  /** A connection that a lookup adds has a tuple that no other has. */
  lemma AddKeepsDistinct(es: seq<Entry>, e: Entry)
    requires AllFit(es) && DistinctTuples(es) && FindEntry(es, e.key) == None
    requires e.tuple == e.key && Shaped(e)
    ensures DistinctTuples(es + [e])
  {
    NotFound(es, e.key);
    hide FindEntry, FitState, Shaped;
    forall i | 0 <= i < |es|
      ensures es[i].tuple != e.tuple
    {
      assert Fits(es[i]);
      TwoTuples(es[i], e);
    }
  }

  lemma NotFound(es: seq<Entry>, t: Tuple)
    requires FindEntry(es, t) == None
    ensures forall i :: 0 <= i < |es| ==> es[i].key != t || es[i].tuple != t
  {
  }

  /** What a packet makes of the table: a lookup, and the packet forwarded on what it finds. */
  function Received(es: seq<Entry>, mem: bytes, q: P.Parsed, create: bool, allow: bool, env: Env, mode: ProxyMode, k: Kernel,
                    now: int): seq<Entry>
    requires W.Readable(mem, q)
  {
    var l := LookedUp(es, q.tuple, create, allow, env, mode, now);
    var f := FindEntry(l, q.tuple);
    if f.None? then l else l[f.value := AfterPacket(l[f.value], mem, q, CanOpen(OpenCount(l), k.fd), k, now)]
  }

  lemma FoundOnce(es: seq<Entry>, t: Tuple, i: nat)
    requires UniqueTuples(es) && FindEntry(es, t) == Some(i)
    ensures i < |es| && FindEntry(Without(es, i), t) == None
  {
    hide FindEntry;
    var w := Without(es, i);
    forall j | 0 <= j < |w|
      ensures w[j].key != t || w[j].tuple != t
    {
      assert w[j] == es[if j < i then j else j + 1];
    }
  }

  lemma StillAbsent(es: seq<Entry>, fewer: seq<Entry>, t: Tuple)
    requires FindEntry(es, t) == None && forall e :: e in fewer ==> e in es
    ensures FindEntry(fewer, t) == None
  {
    hide FindEntry;
    forall j | 0 <= j < |fewer|
      ensures fewer[j].key != t || fewer[j].tuple != t
    {
      assert fewer[j] in es;
    }
  }

  lemma FoundLast(es: seq<Entry>, e: Entry)
    requires FindEntry(es, e.key) == None && e.tuple == e.key
    ensures FindEntry(es + [e], e.key).Some?
  {
    hide FindEntry;
    assert (es + [e])[|es|] == e;
  }

  predicate LiveIn(es: seq<Entry>, t: Tuple) {
    var f := FindEntry(es, t);
    f.Some? && !Dead(es[f.value].conn.status)
  }

  /** The table after a closed connection found under `t` was destroyed. */
  function WithoutDead(es: seq<Entry>, t: Tuple): seq<Entry> {
    var f := FindEntry(es, t);
    if f.Some? && Dead(es[f.value].conn.status) then Without(es, f.value) else es
  }

  /** What a lookup makes of the table. */
  function LookedUp(es: seq<Entry>, t: Tuple, create: bool, allow: bool, env: Env, mode: ProxyMode, now: int): seq<Entry> {
    Created(WithoutDead(es, t), t, create && !LiveIn(es, t), allow, env, mode, now)
  }

  function Created(es: seq<Entry>, t: Tuple, create: bool, allow: bool, env: Env, mode: ProxyMode, now: int): seq<Entry> {
    if !create then es
    else (if OpenCount(es) >= MAX_NUM_SOCKETS then Purged(es, now) else es)
         + if allow then [Entry(t, t, now, env, NewFor(t, mode))] else []
  }

  lemma LookedUpCases(es: seq<Entry>, t: Tuple, create: bool, allow: bool, env: Env, mode: ProxyMode, now: int)
    ensures LookedUp(es, t, create, allow, env, mode, now) ==
            if create && !LiveIn(es, t) then Created(WithoutDead(es, t), t, true, allow, env, mode, now) else WithoutDead(es, t)
  {
    hide FindEntry, Purged, OpenCount;
  }

  lemma SweptCases(es: seq<Entry>, t: Tuple)
    ensures FindEntry(es, t) == None ==> !LiveIn(es, t) && WithoutDead(es, t) == es
    ensures var f := FindEntry(es, t);
            f.Some? ==>
              && f.value < |es|
              && (LiveIn(es, t) <==> !Dead(es[f.value].conn.status))
              && WithoutDead(es, t) == if Dead(es[f.value].conn.status) then Without(es, f.value) else es
  {
    hide FindEntry;
  }

  lemma CreatedCases(es: seq<Entry>, t: Tuple, allow: bool, env: Env, mode: ProxyMode, now: int)
    ensures var es1 := if OpenCount(es) >= MAX_NUM_SOCKETS then Purged(es, now) else es;
            Created(es, t, true, allow, env, mode, now) ==
            if allow then es1 + [Entry(t, t, now, env, NewFor(t, mode))] else es1
  {
  }

  lemma AppendFits(es: seq<Entry>, e: Entry, mode: ProxyMode)
    requires UniqueTuples(es) && AllFit(es) && FindEntry(es, e.key) == None
    requires e.conn == NewFor(e.key, mode) && e.tuple == e.key && FromPacket(e.key)
    ensures UniqueTuples(es + [e]) && AllFit(es + [e])
  {
    NewFits(e, mode);
    hide FindEntry, Fits;
  }

  lemma NewFits(e: Entry, mode: ProxyMode)
    requires e.conn == NewFor(e.key, mode) && e.tuple == e.key && FromPacket(e.key)
    ensures Fits(e)
  {
    NothingUnsent();
    ReachedNew(e.env, mode);
    hide Reached;
  }

  /** A connection of which nothing has happened yet. */
  predicate Untouched(c: Conn, t: Tuple, mode: ProxyMode) {
    && c.status == New && !c.open && !c.inRead && !c.inWrite && c.isTcp == (t.proto == 6) && c.mode == mode
    && c.queue == [] && c.given == [] && c.fromServer == [] && c.requests == [] && c.log == [] && c.sends == 0 && c.dns == 0
    && !c.finAckSent && !c.clientClosed && c.s5 == Hello && c.qsize == 0
    && (c.service == Dns <==> t.proto == 17 && t.dstPort == [0, 53]) && (c.service == Echo <==> t.proto == 1)
  }

  /** The table where a tuple is looked up, without its entry if that was closed. */
  lemma AbsentIn(es: seq<Entry>, t: Tuple)
    requires UniqueTuples(es) && !LiveIn(es, t)
    ensures FindEntry(WithoutDead(es, t), t) == None
    ensures forall e :: e in es && (e.key != t || e.tuple != t) ==> e in WithoutDead(es, t)
  {
    SweptCases(es, t);
    FoundEntry(es, t);
    hide FindEntry, LiveIn, WithoutDead;
    var f := FindEntry(es, t);
    if f.Some? {
      FoundOnce(es, t, f.value);
      assert es == es[..f.value] + [es[f.value]] + es[f.value + 1..];
    }
  }

  /** Looking a tuple up leaves the table alone if a live connection is found. Otherwise, and if one is to be created, a new
      one comes last; other connections stay, but if 128 sockets are open only fresh ones do. */
  lemma LookupAnswers(es: seq<Entry>, t: Tuple, create: bool, allow: bool, env: Env, mode: ProxyMode, now: int)
    requires UniqueTuples(es)
    ensures var r := LookedUp(es, t, create, allow, env, mode, now);
            if LiveIn(es, t) then r == es
            else if create && allow then
              |r| > 0 && FindEntry(r, t) == Some(|r| - 1) &&
              var e := r[|r| - 1]; e.tstamp == now && e.env == env && Untouched(e.conn, t, mode)
            else FindEntry(r, t) == None
    ensures !create || LiveIn(es, t) || OpenCount(WithoutDead(es, t)) < 128 ==>
              forall e :: e in es && (e.key != t || e.tuple != t) ==> e in LookedUp(es, t, create, allow, env, mode, now)
    ensures create && !LiveIn(es, t) && OpenCount(WithoutDead(es, t)) >= 128 ==>
              forall e :: e in LookedUp(es, t, create, allow, env, mode, now) && e.key != t ==> Fresh(e, now)
  {
    LookedUpCases(es, t, create, allow, env, mode, now);
    SweptCases(es, t);
    hide FindEntry, LiveIn, WithoutDead, LookedUp, OpenCount, Purged, Created, Fresh;
    if !LiveIn(es, t) {
      var w := WithoutDead(es, t);
      AbsentIn(es, t);
      if create {
        CreatedAbsent(w, t, allow, env, mode, now);
      }
    }
  }

  lemma CreatedAbsent(w: seq<Entry>, t: Tuple, allow: bool, env: Env, mode: ProxyMode, now: int)
    requires FindEntry(w, t) == None
    ensures var r := Created(w, t, true, allow, env, mode, now);
            if allow then
              |r| > 0 && FindEntry(r, t) == Some(|r| - 1) &&
              var e := r[|r| - 1]; e.tstamp == now && e.env == env && Untouched(e.conn, t, mode)
            else FindEntry(r, t) == None
    ensures OpenCount(w) < 128 ==> forall e :: e in w ==> e in Created(w, t, true, allow, env, mode, now)
    ensures OpenCount(w) >= 128 ==> forall e :: e in Created(w, t, true, allow, env, mode, now) && e.key != t ==> Fresh(e, now)
  {
    CreatedCases(w, t, allow, env, mode, now);
    forall e | e in Purged(w, now)
      ensures Fresh(e, now)
    {
      PurgedIsAlive(w, now, e);
    }
    PurgedIn(w, now);
    PurgeSizes();
    var w1 := if OpenCount(w) >= MAX_NUM_SOCKETS then Purged(w, now) else w;
    hide FindEntry, OpenCount, Purged, Created, Fresh;
    StillAbsent(w, w1, t);
    var e := Entry(t, t, now, env, NewFor(t, mode));
    if allow {
      NotFound(w1, t);
      FirstFound(w1 + [e], t, |w1|);
    }
  }

  // ------------------------------------------------------------------ what a purge keeps and what it removes

  predicate Ascending(es: seq<Entry>) {
    forall i, j :: 0 <= i < j < |es| ==> es[i].tstamp <= es[j].tstamp
  }

  lemma {:induction false} PositionSplits(es: seq<Entry>, t: int)
    requires Ascending(es)
    ensures forall i :: 0 <= i < Position(es, t) ==> es[i].tstamp <= t
    ensures forall i :: Position(es, t) <= i < |es| ==> es[i].tstamp > t
  {
    if es != [] && es[|es| - 1].tstamp > t {
      PositionSplits(es[..|es| - 1], t);
    }
  }

  /** Sorting keeps the entries, each as often as before, and puts them in order. */
  lemma {:induction false} ByTimeSorts(es: seq<Entry>)
    ensures Ascending(ByTime(es)) && multiset(ByTime(es)) == multiset(es)
  {
    if es != [] {
      var r, e := ByTime(es[..|es| - 1]), es[|es| - 1];
      ByTimeSorts(es[..|es| - 1]);
      PositionSplits(r, e.tstamp);
      var at := Position(r, e.tstamp);
      assert es == es[..|es| - 1] + [e];
      assert r == r[..at] + r[at..];
      InsertAscending(r, at, e);
    }
  }

  lemma InsertAscending(r: seq<Entry>, at: nat, e: Entry)
    requires Ascending(r) && at <= |r|
    requires forall i :: 0 <= i < at ==> r[i].tstamp <= e.tstamp
    requires forall i :: at <= i < |r| ==> r[i].tstamp > e.tstamp
    ensures Ascending(Insert(r, at, e))
  {
    var s := Insert(r, at, e);
    assert forall i :: 0 <= i < |s| ==> s[i] == if i < at then r[i] else if i == at then e else r[i - 1];
  }

  /** The entries whose last packet came at time `t`, in order. */
  function OfTime(es: seq<Entry>, t: int): seq<Entry> {
    if es == [] then [] else OfTime(es[..|es| - 1], t) + if es[|es| - 1].tstamp == t then [es[|es| - 1]] else []
  }

  lemma {:induction false} OfTimeConcat(a: seq<Entry>, b: seq<Entry>, t: int)
    ensures OfTime(a + b, t) == OfTime(a, t) + OfTime(b, t)
  {
    if b == [] {
      assert a + b == a;
    } else {
      assert (a + b)[..|a + b| - 1] == a + b[..|b| - 1];
      OfTimeConcat(a, b[..|b| - 1], t);
    }
  }

  lemma {:induction false} NoneOfTime(es: seq<Entry>, t: int)
    requires forall i :: 0 <= i < |es| ==> es[i].tstamp > t
    ensures OfTime(es, t) == []
  {
    if es != [] {
      NoneOfTime(es[..|es| - 1], t);
    }
  }

  /** Sorting leaves entries of equal time in their order. */
  lemma {:induction false} ByTimeIsStable(es: seq<Entry>, t: int)
    ensures OfTime(ByTime(es), t) == OfTime(es, t)
  {
    if es != [] {
      var r, e := ByTime(es[..|es| - 1]), es[|es| - 1];
      var at := Position(r, e.tstamp);
      ByTimeIsStable(es[..|es| - 1], t);
      ByTimeSorts(es[..|es| - 1]);
      PositionSplits(r, e.tstamp);
      assert ByTime(es) == Insert(r, at, e);
      assert OfTime(es, t) == OfTime(es[..|es| - 1], t) + if e.tstamp == t then [e] else [];
      hide ByTime, Position, OfTime;
      InsertedOfTime(r, at, e, t);
    }
  }

  lemma InsertedOfTime(r: seq<Entry>, at: nat, e: Entry, t: int)
    requires at <= |r| && forall i :: at <= i < |r| ==> r[i].tstamp > e.tstamp
    ensures OfTime(Insert(r, at, e), t) == OfTime(r, t) + if e.tstamp == t then [e] else []
  {
    assert OfTime([e], t) == if e.tstamp == t then [e] else [];
    assert r == r[..at] + r[at..];
    hide OfTime;
    OfTimeConcat(r[..at], r[at..], t);
    OfTimeConcat(r[..at] + [e], r[at..], t);
    OfTimeConcat(r[..at], [e], t);
    if e.tstamp == t {
      NoneOfTime(r[at..], t);
    }
  }

  lemma PurgedIn(es: seq<Entry>, now: int)
    ensures forall e :: e in Purged(es, now) ==> e in es
  {
    var live := Filter(es, Keep(es, now));
    FilterIn(es, Keep(es, now));
    ByTimeSorts(live);
    SameMembers(ByTime(live), live);
    PurgedCases(es, now);
    hide Purged, Filter, Keep, ByTime;
  }

  /** Neither over nor without a packet for 60 seconds in TCP, 30 in UDP, or 5 in ICMP. */
  predicate Fresh(e: Entry, now: int) {
    && (e.conn.status == New || e.conn.status == Connecting || e.conn.status == Connected)
    && match e.key.Transport()
       case Tcp => now - e.tstamp < 60
       case Udp => now - e.tstamp < 30
       case Icmp => now - e.tstamp < 5
       case Other => now < e.tstamp
  }

  lemma FreshIs(e: Entry, now: int)
    ensures Fresh(e, now) <==> !Expired(e, now)
  {
  }

  /** What is not purged for idleness are the fresh entries, each as often as before. */
  lemma {:induction false} KeptAreFresh(es: seq<Entry>, now: int, e: Entry)
    ensures multiset(Filter(es, Keep(es, now)))[e] == if Fresh(e, now) then multiset(es)[e] else 0
  {
    hide Fresh, Expired;
    if es != [] {
      var before, last := es[..|es| - 1], es[|es| - 1];
      assert Keep(es, now)[..|es| - 1] == Keep(before, now);
      KeptAreFresh(before, now, e);
      FreshIs(last, now);
      assert es == before + [last];
    }
  }

  /** A purge leaves fresh entries alone; all of them if fewer than 128 of these hold a socket. */
  lemma PurgedIsAlive(es: seq<Entry>, now: int, e: Entry)
    ensures e in Purged(es, now) ==> Fresh(e, now) && e in es
    ensures OpenCount(Filter(es, Keep(es, now))) < 128 ==>
              multiset(Purged(es, now))[e] == if Fresh(e, now) then multiset(es)[e] else 0
  {
    var live := Filter(es, Keep(es, now));
    KeptAreFresh(es, now, e);
    ByTimeSorts(live);
    SameMembers(ByTime(live), live);
    PurgedCases(es, now);
    PurgeSizes();
    hide Purged, Filter, Keep, ByTime, Fresh, OpenCount;
    assert e in live <==> multiset(live)[e] > 0;
    assert e in es <==> multiset(es)[e] > 0;
  }

  lemma {:induction false} OpenCountConcat(s: seq<Entry>, t: seq<Entry>)
    ensures OpenCount(s + t) == OpenCount(s) + OpenCount(t)
  {
    if t == [] {
      assert s + t == s;
    } else {
      assert (s + t)[..|s + t| - 1] == s + t[..|t| - 1];
      OpenCountConcat(s, t[..|t| - 1]);
    }
  }

  lemma {:induction false} OpenCountByTime(es: seq<Entry>)
    ensures OpenCount(ByTime(es)) == OpenCount(es)
  {
    if es != [] {
      var r, e := ByTime(es[..|es| - 1]), es[|es| - 1];
      OpenCountByTime(es[..|es| - 1]);
      var at := Position(r, e.tstamp);
      assert r == r[..at] + r[at..];
      OpenCountConcat(r[..at], r[at..]);
      OpenCountConcat(r[..at], [e]);
      OpenCountConcat(r[..at] + [e], r[at..]);
      assert OpenCount([e]) == OpenCount([]) + if e.conn.open then 1 else 0;
    }
  }

  /** A forced purge removes exactly num_open_sockets - 96 connections, none of them with a later last packet than one
      that stays; it frees the sockets those held, so 96 stay open if all connections held one. */
  lemma ForcedPurge(es: seq<Entry>, now: int)
    requires OpenCount(Filter(es, Keep(es, now))) >= 128
    ensures var live := Filter(es, Keep(es, now));
            var k := OpenCount(live) - 96;
            k <= |ByTime(live)| && CutBetween(live, ByTime(live)[..k], Purged(es, now), k)
  {
    PurgeSizes();
    hide Purged, Filter, Keep, ByTime, OpenCount, CutBetween;
    var live := Filter(es, Keep(es, now));
    PurgedCases(es, now);
    ByTimeSorts(live);
    OpenCountByTime(live);
    CutOldest(live, ByTime(live), OpenCount(live) - NUM_SOCKETS_AFTER_PURGE);
  }

  /** Of the live entries the `k` in `gone` were removed. */
  ghost predicate CutBetween(live: seq<Entry>, gone: seq<Entry>, stay: seq<Entry>, k: nat) {
    && multiset(gone) + multiset(stay) == multiset(live) && |gone| == k
    && (forall i, j :: 0 <= i < |gone| && 0 <= j < |stay| ==> gone[i].tstamp <= stay[j].tstamp)
    && OpenCount(stay) == OpenCount(live) - OpenCount(gone)
    && ((forall i :: 0 <= i < |live| ==> live[i].conn.open) ==> OpenCount(stay) == OpenCount(live) - k)
    && (OpenCount(stay) < OpenCount(live) <==> exists i :: 0 <= i < |gone| && gone[i].conn.open)
  }

  /** The first `k` of the sorted entries go. */
  lemma CutOldest(live: seq<Entry>, sorted: seq<Entry>, k: nat)
    requires Ascending(sorted) && multiset(sorted) == multiset(live) && OpenCount(sorted) == OpenCount(live) && k <= |sorted|
    ensures CutBetween(live, sorted[..k], sorted[k..], k)
  {
    hide OpenCount;
    var gone, stay := sorted[..k], sorted[k..];
    assert sorted == gone + stay;
    OpenCountConcat(gone, stay);
    SomeOpen(gone);
    SameMembers(sorted, live);
    if forall i :: 0 <= i < |live| ==> live[i].conn.open {
      AllOpen(live, gone);
    }
  }

  lemma AllOpen(live: seq<Entry>, some: seq<Entry>)
    requires forall i :: 0 <= i < |live| ==> live[i].conn.open
    requires forall i :: 0 <= i < |some| ==> some[i] in live
    ensures OpenCount(some) == |some|
  {
    hide OpenCount;
    OpenCountBound(some);
  }

  lemma {:induction false} SomeOpen(es: seq<Entry>)
    ensures OpenCount(es) > 0 <==> exists i :: 0 <= i < |es| && es[i].conn.open
  {
    if es != [] {
      SomeOpen(es[..|es| - 1]);
      if es[|es| - 1].conn.open {
        assert es[|es| - 1].conn.open;
      }
    }
  }
}
