/** One proxied connection of zdtun.c as a state machine: what each handler does to the connection's own state.
    `h` fields record what was exchanged; the kernel and the client's callback answer through the arguments. */
module TcpProxy {
  import opened Words
  import TcpOptions

  const ISS: u32 := 0x77EB77EB

  datatype Status = New | Connecting | Connected
                  | Closed | Error | SocketError | ClientError | Reset | Unreachable | Socks5Error

  predicate Dead(s: Status) {
    !s.New? && !s.Connecting? && !s.Connected?
  }

  datatype ProxyMode = NoProxy | Dnat | Socks5

  datatype Socks5Status = Hello | Auth | Requested | SkipBnd | Established

  /** What a connection without TCP part carries: ICMP echo, UDP to port 53, or other UDP. A TCP connection is `Plain`. */
  datatype Service = Plain | Echo | Dns

  /** A segment queued for the server; the first `sofar` bytes were accepted by send(). */
  datatype Item = Item(data: bytes, sofar: nat, push: bool) {
    function Rest(): bytes {
      if sofar <= |data| then data[sofar..] else []
    }
  }

  /** The TCP flags of a packet; a `Datagram` is UDP or ICMP. */
  datatype Kind = SynAck | Ack | PushAck | FinAck | RstAck | Datagram

  /** A packet for the client's callback. `whileOpen` records whether the server socket was open when it was built,
      `given` how many client bytes send() had accepted by then, and `live` whether the status was neither closed nor an
      error. */
  datatype Packet = Packet(kind: Kind, seqNo: u32, ackNo: u32, payload: bytes, whileOpen: bool, given: nat, live: bool)

  /** The errors a socket call can report, as close_with_socket_error tells them apart. */
  datatype SockError = ConnReset | BrokenPipe | ConnRefused | ConnAborted | NetUnreachable | HostUnreachable | OtherError

  /** What never changes for a connection: the client callback's answer to its k-th packet, the proxy's credentials. */
  datatype Env = Env(accepts: nat -> bool, userPass: Option<(bytes, bytes)>, ipver: nat, dstIp: bytes, dstPort: bytes,
                     defaultMss: nat)

  /** A TCP segment from the client. */
  datatype Segment = Segment(seqNo: u32, ackNo: u32, win: u16, fin: bool, rst: bool, psh: bool, ackFlag: bool, urg: bool,
                             options: bytes, payload: bytes)

  datatype Conn = Conn(isTcp: bool, service: Service, mode: ProxyMode, status: Status,
                       open: bool,    // holds a socket
                       inRead: bool,  // the socket is in all_fds
                       inWrite: bool, // the socket is in write_fds
                       s5: Socks5Status, skip: nat,
                       queue: seq<Item>, qsize: u32, clientSeq: u32, zdtunSeq: u32, window: u32, mss: nat, scale: nat,
                       finAckSent: bool, clientClosed: bool,
                       dns: byte,         // DNS queries not answered
                       sends: nat,        // packets handed to the client's callback
                       isn: u32,          // sequence number of the client's SYN
                       given: bytes,      // client bytes accepted by send()
                       fromServer: bytes, // bytes recv() returned
                       handshake: nat,    // how many of those the SOCKS5 handshake consumed
                       requests: seq<bytes>, // SOCKS5 requests or datagrams sent
                       log: seq<Packet>)  // packets the client accepted
  {
    predicate Socks5InProgress() {
      mode == Socks5 && s5 != Established
    }
  }

  /** What a handler makes of the connection, and the code it returns: 0 for success. */
  datatype Outcome = Outcome(c: Conn, rv: int)

  function NewConn(isTcp: bool, mode: ProxyMode): Conn {
    Conn(isTcp, Plain, mode, New, false, false, false, Hello, 0, [], 0, 0, 0, 0, 0, 0, false, false, 0, 0, 0, [], [], 0, [], [])
  }

  /** The bytes of the queue that send() has not accepted. */
  function Unsent(q: seq<Item>): bytes {
    if q == [] then [] else q[0].Rest() + Unsent(q[1..])
  }

  /** `win << scale` in 32 bits. */
  function Shl(win: u16, scale: nat): u32 {
    Wrap32(win * Pow2(scale))
  }

  // ------------------------------------------------------------------ packets to the client, and closing

  function Reply(c: Conn, kind: Kind, payload: bytes): Packet {
    Packet(kind, c.zdtunSeq, c.clientSeq, payload, c.open, |c.given|, !Dead(c.status))
  }

  /** zdtun_conn_close when no RST is due. */
  function CloseQuietly(c: Conn, st: Status): Conn {
    if Dead(c.status) then c
    else c.(open := false, inRead := false, inWrite := false, queue := [], status := if Dead(st) then st else Closed)
  }

  function Accepted(c: Conn, p: Packet): Conn {
    c.(sends := c.sends + 1, log := c.log + [p])
  }

  /** A refused packet closes the connection, and fin_ack_sent keeps the close from sending another. */
  function Refused(c: Conn): Conn {
    CloseQuietly(c.(sends := c.sends + 1, finAckSent := c.isTcp || c.finAckSent), ClientError)
  }

  /** send_to_client. */
  function SendToClient(env: Env, c: Conn, p: Packet): Outcome {
    if env.accepts(c.sends) then Outcome(Accepted(c, p), 0) else Outcome(Refused(c), -1)
  }

  /** zdtun_conn_close. */
  function CloseConn(env: Env, c: Conn, st: Status): Conn {
    if Dead(c.status) then c
    else
      var c1 := c.(open := false, inRead := false, inWrite := false);
      var c2 := if c.isTcp && !c.finAckSent then SendToClient(env, c1, Reply(c1, RstAck, [])).c else c1;
      c2.(queue := [], status := if Dead(st) then st else Closed)
  }

  function StatusOf(e: SockError): Status {
    match e
    case ConnReset => Reset
    case BrokenPipe | ConnRefused | ConnAborted => SocketError
    case NetUnreachable | HostUnreachable => Unreachable
    case OtherError => SocketError
  }

  /** close_with_socket_error; the second part is what it returns. */
  function CloseOnError(env: Env, c: Conn, e: SockError): Outcome {
    Outcome(CloseConn(env, c, StatusOf(e)), if e.NetUnreachable? || e.HostUnreachable? || e.OtherError? then -1 else 0)
  }

  function SendAck(env: Env, c: Conn): Outcome {
    SendToClient(env, c, Reply(c, Ack, []))
  }

  function SendSynAck(env: Env, c: Conn): Outcome {
    var Outcome(c1, rv) := SendToClient(env, c, Reply(c, SynAck, []));
    Outcome(if rv == 0 then c1.(zdtunSeq := Wrap32(c1.zdtunSeq + 1)) else c1, rv)
  }

  // ------------------------------------------------------------------ SOCKS5

  function HelloRequest(env: Env): bytes {
    [5, 1, if env.userPass.Some? then 2 else 0]
  }

  function AuthRequest(user: bytes, pass: bytes): bytes {
    [1, |user| % 256] + user + [|pass| % 256] + pass
  }

  function ConnectRequest(env: Env): bytes {
    [5, 1, 0, if env.ipver == 4 then 1 else 4] + env.dstIp + env.dstPort
  }

  function SendRequest(env: Env, c: Conn, request: bytes, next: Socks5Status, fail: Option<SockError>): Outcome {
    if fail.Some? then CloseOnError(env, c, fail.value)
    else Outcome(c.(requests := c.requests + [request], s5 := next), 0)
  }

  /** The rest of a connect reply: the bound address and port, which may come in several pieces. */
  function SkipBound(env: Env, c: Conn, d: bytes): Outcome {
    if |d| > c.skip then Outcome(CloseConn(env, c, Socks5Error), -1)
    else Outcome(c.(skip := c.skip - |d|, s5 := if c.skip == |d| then Established else SkipBnd), 0)
  }

  function ConnectReply(env: Env, c: Conn, d: bytes): Outcome {
    if |d| < 4 || d[0] != 5 then Outcome(CloseConn(env, c, Socks5Error), -1)
    else if d[1] == 3 || d[1] == 4 then Outcome(CloseConn(env, c, Unreachable), 0)
    else if d[1] == 5 then Outcome(CloseConn(env, c, SocketError), 0)
    else if d[1] != 0 || (d[3] != 1 && d[3] != 4) then Outcome(CloseConn(env, c, Socks5Error), -1)
    else
      var c1 := c.(skip := if d[3] == 1 then 6 else 18, s5 := SkipBnd);
      if |d| > 4 then SkipBound(env, c1, d[4..]) else Outcome(c1, 0)
  }

  /** handle_socks5_reply; `fail` is what sending the next request reports, if one is sent. */
  function Socks5Reply(env: Env, c: Conn, d: bytes, fail: Option<SockError>): Outcome {
    match c.s5
    case Hello =>
      if |d| != 2 || d[0] != 5 then Outcome(CloseConn(env, c, Socks5Error), -1)
      else if d[1] == 0 then SendRequest(env, c, ConnectRequest(env), Requested, fail)
      else if d[1] == 2 && env.userPass.Some? then
        SendRequest(env, c, AuthRequest(env.userPass.value.0, env.userPass.value.1), Auth, fail)
      else Outcome(CloseConn(env, c, Socks5Error), -1)
    case Auth =>
      if |d| < 2 || d[0] != 1 || d[1] != 0 then Outcome(CloseConn(env, c, Socks5Error), -1)
      else SendRequest(env, c, ConnectRequest(env), Requested, fail)
    case Requested => ConnectReply(env, c, d)
    case SkipBnd => SkipBound(env, c, d)
    case Established => Outcome(CloseConn(env, c, Socks5Error), -1)
  }

  // ------------------------------------------------------------------ opening the connection

  /** tcp_socket_syn: the socket is connected; a SOCKS5 proxy is greeted first, otherwise the client gets its SYN+ACK. */
  function SocketSyn(env: Env, c: Conn, fail: Option<SockError>): Outcome {
    var c1 := c.(inWrite := false, status := Connected);
    if c.mode == Socks5 then SendRequest(env, c1, HelloRequest(env), Hello, fail) else SendSynAck(env, c1)
  }

  datatype ConnectResult = Done | InProgress | Failed(e: SockError)

  /** How the kernel answers a client's SYN: whether a socket can be had, connect(), and the SOCKS5 greeting. */
  datatype SynResult = SynResult(socketOk: bool, connect: ConnectResult, hello: Option<SockError>)

  function OpenForSyn(env: Env, c: Conn, seg: Segment, r: SynResult): Outcome {
    if !r.socketOk then Outcome(c.(status := SocketError), -1)
    else
      var o := TcpOptions.Parse(seg.options, TcpOptions.Parsed(env.defaultMss, 0));
      var c1 := c.(open := true, inRead := true, window := Shl(seg.win, o.scale), scale := o.scale, mss := o.mss);
      if r.connect.Failed? then Outcome(CloseOnError(env, c1, r.connect.e).c, 0)
      else
        var c2 := c1.(clientSeq := Wrap32(seg.seqNo + 1), zdtunSeq := ISS, isn := seg.seqNo);
        if r.connect.Done? then SocketSyn(env, c2, r.hello)
        else Outcome(c2.(status := Connecting, inWrite := true), 0)
  }

  // ------------------------------------------------------------------ segments of an active connection

  function ExpectedSeq(c: Conn): u32 {
    Wrap32(c.clientSeq + c.qsize)
  }

  predicate IsKeepAlive(c: Conn, seg: Segment) {
    seg.ackFlag && Wrap32(seg.seqNo + 1) == c.clientSeq
  }

  /** The window left after an ACK: up to `ack + (win << scale)`, counted from the next sequence number to be sent. */
  function WindowAfterAck(c: Conn, seg: Segment): u32 {
    Wrap32(seg.ackNo + Shl(seg.win, c.scale) - c.zdtunSeq)
  }

  /** An accepted ACK updates the window, and makes the socket readable again if there is room. */
  function Rewindow(c: Conn, seg: Segment): Conn {
    var w := WindowAfterAck(c, seg);
    c.(window := w, inRead := c.inRead || w > 0)
  }

  /** enqueue_tcp_data. */
  function Enqueue(c: Conn, payload: bytes, psh: bool): Conn {
    c.(queue := c.queue + [Item(payload, 0, psh)], qsize := Wrap32(c.qsize + |payload|), inWrite := true)
  }

  /** A FIN from the client is acknowledged; if the server closed before, the connection is over. */
  function ClientFin(env: Env, c: Conn, seg: Segment): Outcome {
    var c1 := c.(clientSeq := Wrap32(c.clientSeq + |seg.payload| + 1), clientClosed := true);
    var Outcome(c2, rv) := SendAck(env, c1);
    Outcome(if c2.open then c2 else CloseConn(env, c2, Closed), rv)
  }

  /** The ACK part of a segment: a keep-alive probe is answered, any other ACK updates the window. */
  function TakeAck(env: Env, c: Conn, seg: Segment): Outcome {
    if !seg.ackFlag || !c.open then Outcome(c, 0)
    else if IsKeepAlive(c, seg) then SendAck(env, c)
    else Outcome(Rewindow(c, seg), 0)
  }

  function TakePayload(env: Env, c: Conn, seg: Segment): Outcome {
    if seg.payload == [] then Outcome(c, 0)
    else if c.open then Outcome(Enqueue(c, seg.payload, seg.psh), 0)
    else SendAck(env, c.(clientSeq := Wrap32(c.clientSeq + |seg.payload|)))
  }

  predicate InSequence(c: Conn, seg: Segment) {
    IsKeepAlive(c, seg) || seg.seqNo == ExpectedSeq(c)
  }

  function TakeSegment(env: Env, c: Conn, seg: Segment): Outcome {
    if !InSequence(c, seg) then Outcome(c, 0)
    else if c.Socks5InProgress() then Outcome(CloseConn(env, c, Socks5Error), -1)
    else if seg.rst then Outcome(CloseConn(env, c, Closed), 0)
    else if seg.fin && seg.ackFlag then ClientFin(env, c, seg)
    else
      var Outcome(c1, rv) := TakeAck(env, c, seg);
      if rv != 0 then Outcome(c1, rv) else TakePayload(env, c1, seg)
  }

  /** handle_tcp_fwd. */
  function HandleTcpFwd(env: Env, c: Conn, seg: Segment, r: SynResult): Outcome {
    if seg.urg then Outcome(CloseConn(env, c, Error), -1)
    else if c.status == Connecting then Outcome(c, 0)
    else if c.status == New then OpenForSyn(env, c, seg, r)
    else TakeSegment(env, c, seg)
  }

  /** zdtun_forward, and the close that follows a failure. */
  function Forward(env: Env, c: Conn, seg: Segment, r: SynResult): Conn {
    if Dead(c.status) then c
    else
      var Outcome(c1, rv) := HandleTcpFwd(env, c, seg, r);
      if rv != 0 then CloseConn(env, c1, Error) else c1
  }

  // ------------------------------------------------------------------ socket writable

  /** What send() reports; a count above what was offered stands for all of it. */
  datatype SendResult = Sent(n: nat) | Again | SendFailed(e: SockError)

  /** The queue after offering its items in turn, the bytes accepted, and an error that stopped it. */
  datatype Drained = Drained(queue: seq<Item>, sent: bytes, error: Option<SockError>)

  function Drain(q: seq<Item>, r: nat -> SendResult, i: nat): Drained
    decreases |q|
  {
    if q == [] then Drained([], [], None)
    else
      match r(i)
      case SendFailed(e) => Drained(q, [], Some(e))
      case Again => Drained(q, [], None)
      case Sent(n) =>
        var rest := q[0].Rest();
        if n < |rest| then Drained([q[0].(sofar := q[0].sofar + n)] + q[1..], rest[..n], None)
        else
          var Drained(q', sent, e) := Drain(q[1..], r, i + 1);
          Drained(q', rest + sent, e)
  }

  /** `sent` bytes are counted in client_seq instead of tx_queue_size. */
  function Counted(c: Conn, sent: nat): Conn {
    c.(clientSeq := Wrap32(c.clientSeq + sent), qsize := Wrap32(c.qsize - sent))
  }

  /** What was sent is acknowledged, and the socket is left alone once nothing is queued. */
  function AfterSend(env: Env, c: Conn, sent: nat): Outcome {
    var c1 := c.(inWrite := c.inWrite && c.queue != []);
    if sent == 0 then Outcome(c1, 0) else SendAck(env, Counted(c1, sent))
  }

  /** handle_queued_tcp_data. */
  function Flush(env: Env, c: Conn, r: nat -> SendResult): Outcome {
    var d := Drain(c.queue, r, 0);
    var c1 := c.(queue := d.queue, given := c.given + d.sent);
    if d.error.Some? then CloseOnError(env, c1, d.error.value) else AfterSend(env, c1, |d.sent|)
  }

  datatype AsyncResult = SockOptFailed | AsyncDone | AsyncFailed(e: SockError)

  /** handle_tcp_connect_async. */
  function ConnectAsync(env: Env, c: Conn, r: AsyncResult, hello: Option<SockError>): Outcome {
    match r
    case SockOptFailed => Outcome(CloseConn(env, c, SocketError), -1)
    case AsyncDone => SocketSyn(env, c, hello)
    case AsyncFailed(e) => Outcome(CloseOnError(env, c, e).c, -1)
  }

  function Writable(env: Env, c: Conn, sends: nat -> SendResult, r: AsyncResult, hello: Option<SockError>): Outcome {
    if c.queue != [] then Flush(env, c, sends) else ConnectAsync(env, c, r, hello)
  }

  // ------------------------------------------------------------------ socket readable

  /** What recv() reports; `last` says that nothing more is in the socket buffer. */
  datatype RecvResult = Data(d: bytes, last: bool) | Eof | RecvFailed(e: SockError)

  function ToRecv(c: Conn): nat {
    Min(c.window, c.mss)
  }

  /** The server closed: one FIN to the client, and the socket is given up. */
  function ServerEof(env: Env, c: Conn): Conn {
    var c1 := if c.finAckSent then c
              else
                var Outcome(c2, rv) := SendToClient(env, c, Reply(c, FinAck, []));
                c2.(zdtunSeq := if rv == 0 then Wrap32(c2.zdtunSeq + 1) else c2.zdtunSeq, finAckSent := true);
    var c3 := c1.(open := false, inRead := false, inWrite := false);
    if c.clientClosed then CloseConn(env, c3, Closed) else c3
  }

  /** Server bytes relayed to the client. */
  function Relay(env: Env, c: Conn, d: bytes, last: bool): Outcome {
    if c.window < |d| then Outcome(CloseConn(env, c, Error), -1)
    else
      var Outcome(c1, rv) := SendToClient(env, c, Reply(c, if last then PushAck else Ack, d));
      if rv != 0 then Outcome(c1, -1)
      else
        Outcome(c1.(zdtunSeq := Wrap32(c1.zdtunSeq + |d|), window := c1.window - |d|, inRead := c1.inRead && c1.window != |d|), 0)
  }

  /** handle_tcp_reply. */
  function Readable(env: Env, c: Conn, r: RecvResult, fail: Option<SockError>): Outcome {
    match r
    case RecvFailed(e) => CloseOnError(env, c, e)
    case Eof => Outcome(ServerEof(env, c), 0)
    case Data(d, last) =>
      var c0 := c.(fromServer := c.fromServer + d);
      if c.Socks5InProgress() then
        var Outcome(c1, rv) := Socks5Reply(env, c0.(handshake := c.handshake + |d|), d, fail);
        if rv == 0 && c1.s5 == Established then SendSynAck(env, c1) else Outcome(c1, rv)
      else Relay(env, c0, d, last)
  }

  // ------------------------------------------------------------------ runs

  datatype Event =
    | Client(seg: Segment, syn: SynResult)
    | CanRead(recv: RecvResult, fail: Option<SockError>)
    | CanWrite(sends: nat -> SendResult, async: AsyncResult, hello: Option<SockError>)
    | Close(st: Status)

  /** One event of the event loop; select() reports a socket only if it is open and in the set asked for. */
  function Step(env: Env, c: Conn, e: Event): Conn {
    match e
    case Client(seg, syn) => Forward(env, c, seg, syn)
    case CanRead(recv, fail) => if c.open && c.inRead then Readable(env, c, recv, fail).c else c
    case CanWrite(sends, async, hello) => if c.open && c.inWrite then Writable(env, c, sends, async, hello).c else c
    case Close(st) => CloseConn(env, c, st)
  }

  function Run(env: Env, c: Conn, events: seq<Event>): Conn {
    if events == [] then c else Step(env, Run(env, c, events[..|events| - 1]), events[|events| - 1])
  }

  lemma RunStep(env: Env, c: Conn, events: seq<Event>)
    requires events != []
    ensures Run(env, c, events) == Step(env, Run(env, c, events[..|events| - 1]), events[|events| - 1])
  {
  }

  /** recv() returns at most what it was asked for, and no byte only at the end of the stream or when asked for none. */
  predicate RecvWithin(c: Conn, r: RecvResult) {
    r.Data? ==> 0 < |r.d| <= ToRecv(c)
  }
}
