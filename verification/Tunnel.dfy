/** zdtun.c: the tunnel and its connections, updated in place. Each method is proved to do to its connection what the
    functions of TcpProxy say, and to keep the accounting of sockets, fd sets and counters. What the kernel and the
    client's callback answer comes in through the arguments. */
module Tunnel {
  import opened Words
  import opened Tuples
  import opened TcpProxy
  import opened TcpReadiness
  import opened SocketAccounting
  import opened ConnTable
  import TcpOptions
  import D = TcpDownstream
  import P = Packet
  import W = TcpWire

  /** The TCP part of a connection. */
  datatype TcpState = TcpState(queue: seq<Item>, qsize: u32, clientSeq: u32, zdtunSeq: u32, window: u32, mss: nat, scale: nat,
                               finAckSent: bool, clientClosed: bool)

  /** What a connection exchanged with the server and the client; nothing in the code reads it. */
  datatype Seen = Seen(sends: nat, isn: u32, given: bytes, fromServer: bytes, handshake: nat, requests: seq<bytes>,
                       log: seq<Packet>)

  class ZdtunConn {
    const key: Tuple // the tuple the connection was entered in the table under
    const env: Env
    const mode: ProxyMode
    var tuple: Tuple
    var tstamp: int
    var sock: Option<nat>
    var status: Status
    var s5: Socks5Status
    var skip: nat
    var tcp: TcpState
    var pendingQueries: byte
    var seen: Seen

    constructor (tuple: Tuple, env: Env, mode: ProxyMode, now: int)
      ensures key == tuple && this.tuple == tuple && this.env == env && this.mode == mode && tstamp == now
      ensures sock == None && View({}, {}) == NewFor(tuple, mode)
    {
      key, this.tuple, this.env, this.mode := tuple, tuple, env, mode;
      tstamp, sock, status, s5, skip, pendingQueries := now, None, New, Hello, 0, 0;
      tcp := TcpState([], 0, 0, 0, 0, 0, 0, false, false);
      seen := Seen(0, 0, [], [], 0, [], []);
    }

    function View(allFds: set<nat>, writeFds: set<nat>): Conn
      reads this
    {
      Conn(key.Transport() == Tcp, ServiceOf(key), mode, status, sock.Some?, Has(allFds, sock), Has(writeFds, sock), s5, skip,
           tcp.queue, tcp.qsize, tcp.clientSeq, tcp.zdtunSeq, tcp.window, tcp.mss, tcp.scale, tcp.finAckSent, tcp.clientClosed,
           pendingQueries, seen.sends, seen.isn, seen.given, seen.fromServer, seen.handshake, seen.requests, seen.log)
    }

    function AsEntry(allFds: set<nat>, writeFds: set<nat>): Entry
      reads this
    {
      Entry(key, tuple, tstamp, env, View(allFds, writeFds))
    }
  }

  function SocksOf(t: seq<ZdtunConn>): (r: Socks)
    reads t`sock
    ensures |r| == |t| && forall i :: 0 <= i < |t| ==> r[i] == t[i].sock
  {
    if t == [] then [] else SocksOf(t[..|t| - 1]) + [t[|t| - 1].sock]
  }

  predicate NoDup(t: seq<ZdtunConn>) {
    forall i, j :: 0 <= i < j < |t| ==> t[i] != t[j]
  }

  function CountProto(t: seq<ZdtunConn>, p: Proto): nat {
    if t == [] then 0 else CountProto(t[..|t| - 1], p) + if t[|t| - 1].key.Transport() == p then 1 else 0
  }

  /** The authentication request, filled byte by byte. */
  method FillAuth(user: bytes, pass: bytes) returns (req: bytes)
    ensures req == AuthRequest(user, pass)
  {
    var a := new byte[3 + |user| + |pass|](_ => 0);
    a[0] := 1;
    a[1] := |user| % 256;
    forall i | 0 <= i < |user| {
      a[2 + i] := user[i];
    }
    a[2 + |user|] := |pass| % 256;
    forall i | 0 <= i < |pass| {
      a[3 + |user| + i] := pass[i];
    }
    req := a[..];
  }

  /** The per-protocol counters, which have 16 bits, agree with the table. */
  predicate CountsAre(numTcp: u16, numUdp: u16, numIcmp: u16, t: seq<ZdtunConn>) {
    && numTcp == CountProto(t, Tcp) % 0x1_0000
    && numUdp == CountProto(t, Udp) % 0x1_0000
    && numIcmp == CountProto(t, Icmp) % 0x1_0000
  }

  function Count16(n: u16, up: bool): u16 {
    if up then (n + 1) % 0x1_0000 else (n + 0xFFFF) % 0x1_0000
  }

  class ZdtunT {
    var table: seq<ZdtunConn> // in insertion order
    var allFds: set<nat>
    var writeFds: set<nat>
    var numOpen: u32
    var maxFd: nat
    var numTcp: u16
    var numUdp: u16
    var numIcmp: u16

    /** The accounting of sockets and connections. */
    ghost predicate Valid()
      reads `table, `allFds, `writeFds, `numOpen, `maxFd, `numTcp, `numUdp, `numIcmp, table`sock
    {
      && NoDup(table)
      && Accounted(SocksOf(table), allFds, writeFds, numOpen, maxFd)
      && CountsAre(numTcp, numUdp, numIcmp, table)
    }

    function View(c: ZdtunConn): Conn
      reads c, `allFds, `writeFds
    {
      c.View(allFds, writeFds)
    }

    constructor ()
      ensures Valid() && table == []
    {
      table, allFds, writeFds, numOpen, maxFd, numTcp, numUdp, numIcmp := [], {}, {}, 0, 0, 0, 0, 0;
    }

    // ---------------------------------------------------------------- sockets

    /** open_socket; `kernel` is the fd socket() returns, which is none of the open ones. */
    method OpenSocket(c: ZdtunConn, kernel: Option<nat>) returns (ok: bool)
      requires Valid() && c in table && c.sock == None
      requires kernel.Some? ==> !IsLive(SocksOf(table), kernel.value)
      modifies `allFds, `numOpen, `maxFd, c`sock
      ensures Valid()
      ensures ok == (old(numOpen) < MAX_NUM_SOCKETS && kernel.Some? && kernel.value < FD_SETSIZE)
      ensures if ok then
                && c.sock == kernel && allFds == old(allFds) + {kernel.value} && numOpen == old(numOpen) + 1
                && kernel.value !in old(allFds) && kernel.value !in writeFds
              else c.sock == None && allFds == old(allFds) && numOpen == old(numOpen)
    {
      hide SocksOf, CountProto, Accounted, IsLive;
      if numOpen >= MAX_NUM_SOCKETS || kernel.None? || kernel.value >= FD_SETSIZE {
        return false;
      }
      ghost var i :| 0 <= i < |table| && table[i] == c;
      ghost var socks := SocksOf(table);
      OpenAccounted(socks, allFds, writeFds, numOpen, maxFd, i, kernel.value);
      c.sock := kernel;
      allFds := allFds + {kernel.value};
      numOpen := numOpen + 1;
      maxFd := Max(maxFd, kernel.value);
      assert SocksOf(table) == socks[i := kernel];
      return true;
    }

    /** close_socket, and INVALID_SOCKET stored in the connection. */
    method CloseSocket(c: ZdtunConn)
      requires Valid() && c in table
      modifies `allFds, `writeFds, `numOpen, c`sock
      ensures Valid() && c.sock == None
      ensures allFds == old(allFds) - Fd(old(c.sock)) && writeFds == old(writeFds) - Fd(old(c.sock))
      ensures numOpen == old(numOpen) - if old(c.sock).Some? then 1 else 0
    {
      hide SocksOf, CountProto, Accounted;
      if c.sock.None? {
        return;
      }
      ghost var i :| 0 <= i < |table| && table[i] == c;
      ghost var socks := SocksOf(table);
      CloseAccounted(socks, allFds, writeFds, numOpen, maxFd, i);
      allFds := allFds - {c.sock.value};
      writeFds := writeFds - {c.sock.value};
      numOpen := Wrap32(numOpen - 1);
      c.sock := None;
      assert SocksOf(table) == socks[i := None];
    }

    /** FD_SET and FD_CLR on the connection's socket. */
    method WatchRead(c: ZdtunConn, on: bool)
      requires Valid() && c in table && c.sock.Some?
      modifies `allFds
      ensures Valid() && allFds == if on then old(allFds) + Fd(c.sock) else old(allFds) - Fd(c.sock)
    {
      hide SocksOf, CountProto, Accounted;
      ghost var i :| 0 <= i < |table| && table[i] == c;
      SetsAccounted(SocksOf(table), allFds, writeFds, numOpen, maxFd, i);
      allFds := if on then allFds + {c.sock.value} else allFds - {c.sock.value};
    }

    method WatchWrite(c: ZdtunConn, on: bool)
      requires Valid() && c in table && c.sock.Some?
      modifies `writeFds
      ensures Valid() && writeFds == if on then old(writeFds) + Fd(c.sock) else old(writeFds) - Fd(c.sock)
    {
      hide SocksOf, CountProto, Accounted;
      ghost var i :| 0 <= i < |table| && table[i] == c;
      SetsAccounted(SocksOf(table), allFds, writeFds, numOpen, maxFd, i);
      writeFds := if on then writeFds + {c.sock.value} else writeFds - {c.sock.value};
    }

    // ---------------------------------------------------------------- packets to the client, and closing

    method BuildReply(c: ZdtunConn, kind: Kind, payload: bytes) returns (p: Packet)
      ensures p == Reply(View(c), kind, payload)
    {
      p := Packet(kind, c.tcp.zdtunSeq, c.tcp.clientSeq, payload, c.sock.Some?, |c.seen.given|, !Dead(c.status));
    }

    /** send_to_client. */
    method SendToClient(c: ZdtunConn, p: Packet) returns (rv: int)
      requires Valid() && c in table
      modifies `allFds, `writeFds, `numOpen, c
      ensures Valid() && Outcome(View(c), rv) == TcpProxy.SendToClient(c.env, old(View(c)), p)
      ensures Touched(old(c.sock), c.sock, old(allFds), allFds, old(writeFds), writeFds)
      ensures c.tuple == old(c.tuple) && c.tstamp == old(c.tstamp)
      decreases MaySendRst(c), 20
    {
      hide Valid, Touched, CloseConn, TcpProxy.SendToClient, Has;
      if c.env.accepts(c.seen.sends) {
        TouchedNot(c.sock, allFds, writeFds);
        SendCases(c.env, View(c), p);
        c.seen := c.seen.(sends := c.seen.sends + 1, log := c.seen.log + [p]);
        rv := 0;
      } else {
        rv := CloseOnRefusal(c, p);
      }
    }

    /** The client did not take the packet; fin_ack_sent keeps the close from sending another. */
    method CloseOnRefusal(c: ZdtunConn, p: Packet) returns (rv: int)
      requires Valid() && c in table && !c.env.accepts(c.seen.sends)
      modifies `allFds, `writeFds, `numOpen, c
      ensures Valid() && Outcome(View(c), rv) == TcpProxy.SendToClient(c.env, old(View(c)), p)
      ensures Touched(old(c.sock), c.sock, old(allFds), allFds, old(writeFds), writeFds)
      ensures c.tuple == old(c.tuple) && c.tstamp == old(c.tstamp)
      decreases MaySendRst(c), 10
    {
      hide Valid, Touched, CloseConn, TcpProxy.SendToClient, View, ZdtunConn.View;
      ViewSends(c);
      ghost var v := View(c);
      CountRefusal(c);
      ConnClose(c, ClientError);
      rv := -1;
      SendCases(c.env, v, p);
    }

    lemma ViewSends(c: ZdtunConn)
      ensures View(c).sends == c.seen.sends
    {
    }

    method CountRefusal(c: ZdtunConn)
      requires Valid()
      modifies c`seen, c`tcp
      ensures Valid() && !MaySendRst(c)
      ensures View(c) == old(View(c)).(sends := old(View(c)).sends + 1, finAckSent := old(View(c)).isTcp || old(View(c)).finAckSent)
    {
      hide Valid, Has;
      c.seen := c.seen.(sends := c.seen.sends + 1);
      c.tcp := c.tcp.(finAckSent := c.key.Transport() == Tcp || c.tcp.finAckSent);
    }

    predicate MaySendRst(c: ZdtunConn)
      reads c
    {
      c.key.Transport() == Tcp && !c.tcp.finAckSent
    }

    /** zdtun_conn_close. */
    method ConnClose(c: ZdtunConn, st: Status)
      requires Valid() && c in table
      modifies `allFds, `writeFds, `numOpen, c
      ensures Valid() && View(c) == CloseConn(c.env, old(View(c)), st)
      ensures Touched(old(c.sock), c.sock, old(allFds), allFds, old(writeFds), writeFds)
      ensures c.tuple == old(c.tuple) && c.tstamp == old(c.tstamp)
      decreases MaySendRst(c), if MaySendRst(c) then 50 else 3
    {
      hide Valid, Touched, CloseConn, TcpProxy.SendToClient, Has;
      TouchedNot(c.sock, allFds, writeFds);
      CloseCases(c.env, View(c), st);
      if !Dead(c.status) {
        CloseLive(c, st);
      }
    }

    method CloseLive(c: ZdtunConn, st: Status)
      requires Valid() && c in table && !Dead(c.status)
      modifies `allFds, `writeFds, `numOpen, c
      ensures Valid() && View(c) == CloseConn(c.env, old(View(c)), st)
      ensures Touched(old(c.sock), c.sock, old(allFds), allFds, old(writeFds), writeFds)
      ensures c.tuple == old(c.tuple) && c.tstamp == old(c.tstamp)
      decreases MaySendRst(c), if MaySendRst(c) then 40 else 2
    {
      hide Valid, Touched, CloseConn, TcpProxy.SendToClient, SendRst, View, ZdtunConn.View;
      CloseCases(c.env, View(c), st);
      ViewStatus(c);
      TouchedClosed(c.sock, allFds, writeFds);
      DropSocket(c);
      label L:
      CloseRst(c);
      TouchedTwice(old(c.sock), None, c.sock, old(allFds), old@L(allFds), allFds, old(writeFds), old@L(writeFds), writeFds);
      SetClosed(c, st);
    }

    lemma ViewStatus(c: ZdtunConn)
      ensures View(c).status == c.status
    {
    }

    /** The socket of a connection is gone. */
    method DropSocket(c: ZdtunConn)
      requires Valid() && c in table
      modifies `allFds, `writeFds, `numOpen, c`sock
      ensures Valid() && c.sock == None && View(c) == old(View(c)).(open := false, inRead := false, inWrite := false)
      ensures allFds == old(allFds) - Fd(old(c.sock)) && writeFds == old(writeFds) - Fd(old(c.sock))
    {
      hide Valid;
      CloseSocket(c);
    }

    method SetClosed(c: ZdtunConn, st: Status)
      requires Valid()
      modifies c`tcp, c`status
      ensures Valid() && View(c) == old(View(c)).(queue := [], status := if Dead(st) then st else Closed)
    {
      hide Valid, Has;
      c.tcp := c.tcp.(queue := []);
      c.status := if Dead(st) then st else Closed;
    }

    method CloseRst(c: ZdtunConn)
      requires Valid() && c in table && c.sock == None
      modifies `allFds, `writeFds, `numOpen, c
      ensures Valid() && View(c) == SendRst(c.env, old(View(c)))
      ensures Touched(old(c.sock), c.sock, old(allFds), allFds, old(writeFds), writeFds)
      ensures c.tuple == old(c.tuple) && c.tstamp == old(c.tstamp)
      decreases MaySendRst(c), if MaySendRst(c) then 30 else 1
    {
      hide Valid, Touched, TcpProxy.SendToClient, Has;
      TouchedNot(c.sock, allFds, writeFds);
      if c.key.Transport() == Tcp && !c.tcp.finAckSent {
        var p := BuildReply(c, RstAck, []);
        var _ := SendToClient(c, p);
      }
    }

    /** close_with_socket_error. */
    method CloseWithSocketError(c: ZdtunConn, e: SockError) returns (rv: int)
      requires Valid() && c in table
      modifies `allFds, `writeFds, `numOpen, c
      ensures Valid() && Outcome(View(c), rv) == CloseOnError(c.env, old(View(c)), e)
      ensures Touched(old(c.sock), c.sock, old(allFds), allFds, old(writeFds), writeFds)
      ensures c.tuple == old(c.tuple) && c.tstamp == old(c.tstamp)
    {
      hide Valid, Touched, CloseConn, View, ZdtunConn.View;
      var st := SocketError;
      rv := 0;
      match e {
        case ConnReset => st := Reset;
        case BrokenPipe | ConnRefused | ConnAborted => st := SocketError;
        case NetUnreachable | HostUnreachable => st, rv := Unreachable, -1;
        case OtherError => st, rv := SocketError, -1;
      }
      ConnClose(c, st);
    }

    /** A packet without payload: build_reply_tcpip and send_to_client. */
    method SendEmpty(c: ZdtunConn, kind: Kind) returns (rv: int)
      requires Valid() && c in table
      modifies `allFds, `writeFds, `numOpen, c
      ensures Valid() && Outcome(View(c), rv) == TcpProxy.SendToClient(c.env, old(View(c)), Reply(old(View(c)), kind, []))
      ensures Touched(old(c.sock), c.sock, old(allFds), allFds, old(writeFds), writeFds)
      ensures c.tuple == old(c.tuple) && c.tstamp == old(c.tstamp)
    {
      hide Valid, Touched, TcpProxy.SendToClient, View, ZdtunConn.View;
      var p := BuildReply(c, kind, []);
      rv := SendToClient(c, p);
    }

    /** send_syn_ack. */
    method SendSynAck(c: ZdtunConn) returns (rv: int)
      requires Valid() && c in table
      modifies `allFds, `writeFds, `numOpen, c
      ensures Valid() && Outcome(View(c), rv) == TcpProxy.SendSynAck(c.env, old(View(c)))
      ensures Touched(old(c.sock), c.sock, old(allFds), allFds, old(writeFds), writeFds)
      ensures c.tuple == old(c.tuple) && c.tstamp == old(c.tstamp)
    {
      hide Valid, Touched, TcpProxy.SendToClient, Has;
      rv := SendEmpty(c, SynAck);
      if rv == 0 {
        c.tcp := c.tcp.(zdtunSeq := Wrap32(c.tcp.zdtunSeq + 1));
      }
    }

    // ---------------------------------------------------------------- SOCKS5

    /** send() of a request, and the state that follows. */
    method SendSocks5(c: ZdtunConn, request: bytes, next: Socks5Status, fail: Option<SockError>) returns (rv: int)
      requires Valid() && c in table
      modifies `allFds, `writeFds, `numOpen, c
      ensures Valid() && Outcome(View(c), rv) == SendRequest(c.env, old(View(c)), request, next, fail)
      ensures Touched(old(c.sock), c.sock, old(allFds), allFds, old(writeFds), writeFds)
      ensures c.tuple == old(c.tuple) && c.tstamp == old(c.tstamp)
    {
      hide Valid, Touched, CloseOnError, Has;
      TouchedNot(c.sock, allFds, writeFds);
      if fail.Some? {
        rv := CloseWithSocketError(c, fail.value);
      } else {
        c.seen := c.seen.(requests := c.seen.requests + [request]);
        c.s5 := next;
        rv := 0;
      }
    }

    /** socks5_connect. */
    method Socks5Connect(c: ZdtunConn, fail: Option<SockError>) returns (rv: int)
      requires Valid() && c in table
      modifies `allFds, `writeFds, `numOpen, c
      ensures Valid() && Outcome(View(c), rv) == SendRequest(c.env, old(View(c)), HelloRequest(c.env), Hello, fail)
      ensures Touched(old(c.sock), c.sock, old(allFds), allFds, old(writeFds), writeFds)
      ensures c.tuple == old(c.tuple) && c.tstamp == old(c.tstamp)
    {
      hide Valid, Touched, SendRequest, View, ZdtunConn.View;
      var hello: bytes := [5, 1, if c.env.userPass.Some? then 2 else 0];
      rv := SendSocks5(c, hello, Hello, fail);
    }

    /** socks5_auth: the request buffer is filled byte by byte. */
    method Socks5Auth(c: ZdtunConn, fail: Option<SockError>) returns (rv: int)
      requires Valid() && c in table && c.env.userPass.Some?
      modifies `allFds, `writeFds, `numOpen, c
      ensures Valid() && Outcome(View(c), rv) == SendRequest(c.env, old(View(c)), AuthRequest(c.env.userPass.value.0, c.env.userPass.value.1), Auth, fail)
      ensures Touched(old(c.sock), c.sock, old(allFds), allFds, old(writeFds), writeFds)
      ensures c.tuple == old(c.tuple) && c.tstamp == old(c.tstamp)
    {
      hide Valid, Touched, SendRequest, View, ZdtunConn.View;
      var user, pass := c.env.userPass.value.0, c.env.userPass.value.1;
      var req := FillAuth(user, pass);
      rv := SendSocks5(c, req, Auth, fail);
    }

    /** socks5_req. */
    method Socks5Req(c: ZdtunConn, fail: Option<SockError>) returns (rv: int)
      requires Valid() && c in table
      modifies `allFds, `writeFds, `numOpen, c
      ensures Valid() && Outcome(View(c), rv) == SendRequest(c.env, old(View(c)), ConnectRequest(c.env), Requested, fail)
      ensures Touched(old(c.sock), c.sock, old(allFds), allFds, old(writeFds), writeFds)
      ensures c.tuple == old(c.tuple) && c.tstamp == old(c.tstamp)
    {
      hide Valid, Touched, SendRequest, View, ZdtunConn.View;
      var req: bytes := [5, 1, 0, if c.env.ipver == 4 then 1 else 4] + c.env.dstIp + c.env.dstPort;
      rv := SendSocks5(c, req, Requested, fail);
    }

    /** A close that reports a failure. */
    method FailWith(c: ZdtunConn, st: Status) returns (rv: int)
      requires Valid() && c in table
      modifies `allFds, `writeFds, `numOpen, c
      ensures Valid() && View(c) == CloseConn(c.env, old(View(c)), st) && rv == -1
      ensures Touched(old(c.sock), c.sock, old(allFds), allFds, old(writeFds), writeFds)
      ensures c.tuple == old(c.tuple) && c.tstamp == old(c.tstamp)
    {
      hide Valid, Touched, CloseConn, View, ZdtunConn.View;
      ConnClose(c, st);
      rv := -1;
    }

    /** handle_socks5_reply. */
    method HandleSocks5Reply(c: ZdtunConn, d: bytes, fail: Option<SockError>) returns (rv: int)
      requires Valid() && c in table
      modifies `allFds, `writeFds, `numOpen, c
      ensures Valid() && Outcome(View(c), rv) == Socks5Reply(c.env, old(View(c)), d, fail)
      ensures Touched(old(c.sock), c.sock, old(allFds), allFds, old(writeFds), writeFds)
      ensures c.tuple == old(c.tuple) && c.tstamp == old(c.tstamp)
      decreases |d|, 1
    {
      hide Valid, Touched, CloseConn, SendRequest, ConnectReply, SkipBound, ConnectRequest, AuthRequest, View;
      ViewS5(c);
      hide ZdtunConn.View;
      match c.s5
      case Hello => rv := HelloReply(c, d, fail);
      case Auth => rv := AuthReply(c, d, fail);
      case Requested => rv := HandleConnectReply(c, d, fail);
      case SkipBnd => rv := SkipBndAddr(c, d);
      case Established => rv := FailWith(c, Socks5Error);
    }

    lemma ViewS5(c: ZdtunConn)
      ensures View(c).s5 == c.s5
    {
    }

    method HelloReply(c: ZdtunConn, d: bytes, fail: Option<SockError>) returns (rv: int)
      requires Valid() && c in table && c.s5 == Hello
      modifies `allFds, `writeFds, `numOpen, c
      ensures Valid() && Outcome(View(c), rv) == Socks5Reply(c.env, old(View(c)), d, fail)
      ensures Touched(old(c.sock), c.sock, old(allFds), allFds, old(writeFds), writeFds)
      ensures c.tuple == old(c.tuple) && c.tstamp == old(c.tstamp)
    {
      hide Valid, Touched, CloseConn, SendRequest, ConnectReply, SkipBound, ConnectRequest, AuthRequest, View;
      ViewS5(c);
      hide ZdtunConn.View;
      if |d| != 2 || d[0] != 5 {
        rv := FailWith(c, Socks5Error);
      } else if d[1] == 0 {
        rv := Socks5Req(c, fail);
      } else if d[1] == 2 && c.env.userPass.Some? {
        rv := Socks5Auth(c, fail);
      } else {
        rv := FailWith(c, Socks5Error);
      }
    }

    method AuthReply(c: ZdtunConn, d: bytes, fail: Option<SockError>) returns (rv: int)
      requires Valid() && c in table && c.s5 == Auth
      modifies `allFds, `writeFds, `numOpen, c
      ensures Valid() && Outcome(View(c), rv) == Socks5Reply(c.env, old(View(c)), d, fail)
      ensures Touched(old(c.sock), c.sock, old(allFds), allFds, old(writeFds), writeFds)
      ensures c.tuple == old(c.tuple) && c.tstamp == old(c.tstamp)
    {
      hide Valid, Touched, CloseConn, SendRequest, ConnectReply, SkipBound, ConnectRequest, AuthRequest, View;
      ViewS5(c);
      hide ZdtunConn.View;
      if |d| < 2 || d[0] != 1 || d[1] != 0 {
        rv := FailWith(c, Socks5Error);
      } else {
        rv := Socks5Req(c, fail);
      }
    }

    method HandleConnectReply(c: ZdtunConn, d: bytes, fail: Option<SockError>) returns (rv: int)
      requires Valid() && c in table
      modifies `allFds, `writeFds, `numOpen, c
      ensures Valid() && Outcome(View(c), rv) == ConnectReply(c.env, old(View(c)), d)
      ensures Touched(old(c.sock), c.sock, old(allFds), allFds, old(writeFds), writeFds)
      ensures c.tuple == old(c.tuple) && c.tstamp == old(c.tstamp)
      decreases |d|, 0
    {
      hide Valid, Touched, CloseConn, SkipBound, View, ZdtunConn.View;
      if |d| < 4 || d[0] != 5 {
        rv := FailWith(c, Socks5Error);
      } else if d[1] != 0 {
        rv := RequestDenied(c, d);
      } else if d[3] != 1 && d[3] != 4 {
        rv := FailWith(c, Socks5Error);
      } else {
        rv := RequestGranted(c, d, fail);
      }
    }

    method RequestDenied(c: ZdtunConn, d: bytes) returns (rv: int)
      requires Valid() && c in table && |d| >= 4 && d[0] == 5 && d[1] != 0
      modifies `allFds, `writeFds, `numOpen, c
      ensures Valid() && Outcome(View(c), rv) == ConnectReply(c.env, old(View(c)), d)
      ensures Touched(old(c.sock), c.sock, old(allFds), allFds, old(writeFds), writeFds)
      ensures c.tuple == old(c.tuple) && c.tstamp == old(c.tstamp)
    {
      hide Valid, Touched, CloseConn, SkipBound, View, ZdtunConn.View;
      if d[1] == 3 || d[1] == 4 {
        ConnClose(c, Unreachable);
        rv := 0;
      } else if d[1] == 5 {
        ConnClose(c, SocketError);
        rv := 0;
      } else {
        ConnClose(c, Socks5Error);
        rv := -1;
      }
    }

    method RequestGranted(c: ZdtunConn, d: bytes, fail: Option<SockError>) returns (rv: int)
      requires Valid() && c in table && |d| >= 4 && d[0] == 5 && d[1] == 0 && (d[3] == 1 || d[3] == 4)
      modifies `allFds, `writeFds, `numOpen, c
      ensures Valid() && Outcome(View(c), rv) == ConnectReply(c.env, old(View(c)), d)
      ensures Touched(old(c.sock), c.sock, old(allFds), allFds, old(writeFds), writeFds)
      ensures c.tuple == old(c.tuple) && c.tstamp == old(c.tstamp)
      decreases |d|, 0, 0
    {
      hide Valid, Touched, ConnectReply, Socks5Reply, Has;
      ghost var v := View(c);
      TouchedNot(c.sock, allFds, writeFds);
      GrantedCases(c.env, v, d, fail);
      var toSkip := if d[3] == 1 then 4 else 16;
      c.skip := toSkip + 2;
      c.s5 := SkipBnd;
      assert View(c) == v.(skip := if d[3] == 1 then 6 else 18, s5 := SkipBnd);
      hide View, ZdtunConn.View;
      rv := 0;
      if |d| > 4 {
        rv := HandleSocks5Reply(c, d[4..], fail);
      }
    }

    method SkipBndAddr(c: ZdtunConn, d: bytes) returns (rv: int)
      requires Valid() && c in table
      modifies `allFds, `writeFds, `numOpen, c
      ensures Valid() && Outcome(View(c), rv) == SkipBound(c.env, old(View(c)), d)
      ensures Touched(old(c.sock), c.sock, old(allFds), allFds, old(writeFds), writeFds)
      ensures c.tuple == old(c.tuple) && c.tstamp == old(c.tstamp)
    {
      hide Valid, Touched, CloseConn, Has;
      TouchedNot(c.sock, allFds, writeFds);
      if |d| <= c.skip {
        c.skip := c.skip - |d|;
        c.s5 := if c.skip == 0 then Established else SkipBnd;
        rv := 0;
      } else {
        rv := FailWith(c, Socks5Error);
      }
    }

    // ---------------------------------------------------------------- the connection becomes up

    /** tcp_socket_syn. */
    method TcpSocketSyn(c: ZdtunConn, fail: Option<SockError>) returns (rv: int)
      requires Valid() && c in table && c.sock.Some?
      modifies `allFds, `writeFds, `numOpen, c
      ensures Valid() && Outcome(View(c), rv) == SocketSyn(c.env, old(View(c)), fail)
      ensures Touched(old(c.sock), c.sock, old(allFds), allFds, old(writeFds), writeFds)
      ensures c.tuple == old(c.tuple) && c.tstamp == old(c.tstamp)
    {
      hide Valid, TcpProxy.SendSynAck, SendRequest, HelloRequest;
      ghost var v := View(c);
      WatchWrite(c, false);
      label L:
      c.status := Connected;
      assert View(c) == v.(inWrite := false, status := Connected);
      hide View, ZdtunConn.View;
      if c.mode == Socks5 {
        rv := Socks5Connect(c, fail);
      } else {
        rv := SendSynAck(c);
      }
      assert Touched(old(c.sock), old(c.sock), old(allFds), old@L(allFds), old(writeFds), old@L(writeFds));
      hide Touched;
      TouchedTwice(old(c.sock), old(c.sock), c.sock, old(allFds), old@L(allFds), allFds, old(writeFds), old@L(writeFds), writeFds);
    }

    // ---------------------------------------------------------------- segments from the client

    /** enqueue_tcp_data. */
    method EnqueueTcpData(c: ZdtunConn, payload: bytes, psh: bool)
      requires Valid() && c in table && c.sock.Some?
      modifies `allFds, `writeFds, `numOpen, c
      ensures Valid() && View(c) == Enqueue(old(View(c)), payload, psh)
      ensures Touched(old(c.sock), c.sock, old(allFds), allFds, old(writeFds), writeFds)
      ensures c.tuple == old(c.tuple) && c.tstamp == old(c.tstamp)
    {
      hide Valid, Touched;
      TouchedSets(c.sock, allFds, writeFds);
      var item := Item(payload, 0, psh);
      c.tcp := c.tcp.(queue := c.tcp.queue + [item], qsize := Wrap32(c.tcp.qsize + |payload|));
      WatchWrite(c, true);
    }

    /** A FIN from the client. */
    method TakeFin(c: ZdtunConn, seg: Segment) returns (rv: int)
      requires Valid() && c in table
      modifies `allFds, `writeFds, `numOpen, c
      ensures Valid() && Outcome(View(c), rv) == ClientFin(c.env, old(View(c)), seg)
      ensures Touched(old(c.sock), c.sock, old(allFds), allFds, old(writeFds), writeFds)
      ensures c.tuple == old(c.tuple) && c.tstamp == old(c.tstamp)
    {
      hide Valid, Touched, CloseConn, TcpProxy.SendToClient, Has;
      ghost var v := View(c);
      c.tcp := c.tcp.(clientSeq := Wrap32(c.tcp.clientSeq + |seg.payload| + 1), clientClosed := true);
      assert View(c) == v.(clientSeq := Wrap32(v.clientSeq + |seg.payload| + 1), clientClosed := true);
      hide View;
      rv := SendEmpty(c, Ack);
      label L:
      ViewOpen(c);
      hide ZdtunConn.View;
      if c.sock.None? {
        ConnClose(c, Closed);
        TouchedTwice(old(c.sock), old@L(c.sock), c.sock, old(allFds), old@L(allFds), allFds, old(writeFds), old@L(writeFds), writeFds);
      }
    }

    lemma ViewOpen(c: ZdtunConn)
      ensures View(c).open == c.sock.Some?
    {
    }

    /** The bytes the client has not acknowledged yet, by the branch that the numbers' order asks for. */
    method InFlight(zdtunSeq: u32, ackNo: u32) returns (inFlight: u32)
      ensures inFlight == Wrap32(zdtunSeq - ackNo)
    {
      if zdtunSeq >= ackNo {
        inFlight := zdtunSeq - ackNo;
      } else {
        inFlight := 0xFFFF_FFFF - ackNo + zdtunSeq + 1;
        WrapShift(zdtunSeq as int - ackNo as int, 1);
      }
    }

    /** An ACK from the client updates the window, and makes the socket readable again if there is room. */
    method UpdateWindow(c: ZdtunConn, seg: Segment)
      requires Valid() && c in table && c.sock.Some?
      modifies `allFds, `writeFds, `numOpen, c
      ensures Valid() && View(c) == Rewindow(old(View(c)), seg)
      ensures Touched(old(c.sock), c.sock, old(allFds), allFds, old(writeFds), writeFds)
      ensures c.tuple == old(c.tuple) && c.tstamp == old(c.tstamp)
    {
      hide Valid, Touched, WindowAfterAck;
      var inFlight := InFlight(c.tcp.zdtunSeq, seg.ackNo);
      var window := Shl(seg.win, c.tcp.scale);
      ghost var v := View(c);
      WindowFromInFlight(v, seg, inFlight);
      TouchedNot(c.sock, allFds, writeFds);
      TouchedSets(c.sock, allFds, writeFds);
      c.tcp := c.tcp.(window := Wrap32(window as int - inFlight));
      if c.sock.value !in allFds && c.tcp.window > 0 {
        WatchRead(c, true);
      }
    }

    /** The ACK part of a segment. */
    method HandleAck(c: ZdtunConn, seg: Segment, keepAlive: bool) returns (rv: int)
      requires Valid() && c in table && keepAlive == IsKeepAlive(View(c), seg)
      modifies `allFds, `writeFds, `numOpen, c
      ensures Valid() && Outcome(View(c), rv) == TakeAck(c.env, old(View(c)), seg)
      ensures Touched(old(c.sock), c.sock, old(allFds), allFds, old(writeFds), writeFds)
      ensures c.tuple == old(c.tuple) && c.tstamp == old(c.tstamp)
    {
      hide Valid, Touched, TcpProxy.SendToClient, IsKeepAlive, WindowAfterAck, View;
      ViewOpen(c);
      hide ZdtunConn.View;
      TouchedNot(c.sock, allFds, writeFds);
      rv := 0;
      if seg.ackFlag && c.sock.Some? {
        if keepAlive {
          rv := SendEmpty(c, Ack);
        } else {
          UpdateWindow(c, seg);
        }
      }
    }

    /** Payload is queued for the server, or acknowledged right away once the server has closed. */
    method HandlePayload(c: ZdtunConn, seg: Segment) returns (rv: int)
      requires Valid() && c in table
      modifies `allFds, `writeFds, `numOpen, c
      ensures Valid() && Outcome(View(c), rv) == TakePayload(c.env, old(View(c)), seg)
      ensures Touched(old(c.sock), c.sock, old(allFds), allFds, old(writeFds), writeFds)
      ensures c.tuple == old(c.tuple) && c.tstamp == old(c.tstamp)
    {
      hide Valid, Touched, TcpProxy.SendToClient, View;
      ViewOpen(c);
      hide ZdtunConn.View;
      TouchedNot(c.sock, allFds, writeFds);
      rv := 0;
      if |seg.payload| > 0 {
        if c.sock.None? {
          rv := AckDropped(c, seg);
        } else {
          EnqueueTcpData(c, seg.payload, seg.psh);
        }
      }
    }

    method AckDropped(c: ZdtunConn, seg: Segment) returns (rv: int)
      requires Valid() && c in table && c.sock.None? && |seg.payload| > 0
      modifies `allFds, `writeFds, `numOpen, c
      ensures Valid() && Outcome(View(c), rv) == TakePayload(c.env, old(View(c)), seg)
      ensures Touched(old(c.sock), c.sock, old(allFds), allFds, old(writeFds), writeFds)
      ensures c.tuple == old(c.tuple) && c.tstamp == old(c.tstamp)
    {
      hide Valid, Touched, TcpProxy.SendToClient, Has;
      ghost var v := View(c);
      c.tcp := c.tcp.(clientSeq := Wrap32(c.tcp.clientSeq + |seg.payload|));
      assert View(c) == v.(clientSeq := Wrap32(v.clientSeq + |seg.payload|));
      assert !v.open;
      hide View, ZdtunConn.View;
      rv := SendEmpty(c, Ack);
    }

    method HandleData(c: ZdtunConn, seg: Segment, keepAlive: bool) returns (rv: int)
      requires Valid() && c in table && keepAlive == IsKeepAlive(View(c), seg)
      modifies `allFds, `writeFds, `numOpen, c
      ensures Valid() && Outcome(View(c), rv) == TakeData(c.env, old(View(c)), seg)
      ensures Touched(old(c.sock), c.sock, old(allFds), allFds, old(writeFds), writeFds)
      ensures c.tuple == old(c.tuple) && c.tstamp == old(c.tstamp)
    {
      hide Valid, Touched, TakeAck, TakePayload, IsKeepAlive, View, ZdtunConn.View;
      rv := HandleAck(c, seg, keepAlive);
      label L:
      if rv == 0 {
        rv := HandlePayload(c, seg);
        TouchedTwice(old(c.sock), old@L(c.sock), c.sock, old(allFds), old@L(allFds), allFds, old(writeFds), old@L(writeFds), writeFds);
      }
    }

    /** A segment of a connection that is already active. */
    method HandleSegment(c: ZdtunConn, seg: Segment) returns (rv: int)
      requires Valid() && c in table
      modifies `allFds, `writeFds, `numOpen, c
      ensures Valid() && Outcome(View(c), rv) == TakeSegment(c.env, old(View(c)), seg)
      ensures Touched(old(c.sock), c.sock, old(allFds), allFds, old(writeFds), writeFds)
      ensures c.tuple == old(c.tuple) && c.tstamp == old(c.tstamp)
    {
      hide Valid, Touched, CloseConn, ClientFin, TakeAck, TakePayload;
      var keepAlive := seg.ackFlag && Wrap32(seg.seqNo + 1) == c.tcp.clientSeq;
      var inSequence := keepAlive || seg.seqNo == Wrap32(c.tcp.clientSeq + c.tcp.qsize);
      var inProgress := c.mode == Socks5 && c.s5 != Established;
      assert keepAlive == IsKeepAlive(View(c), seg) && inSequence == InSequence(View(c), seg);
      assert inProgress == View(c).Socks5InProgress();
      hide View, ZdtunConn.View, IsKeepAlive, InSequence;
      SegmentCases(c.env, View(c), seg);
      hide TakeSegment;
      TouchedNot(c.sock, allFds, writeFds);
      rv := 0;
      if !inSequence {
      } else if inProgress {
        rv := FailWith(c, Socks5Error);
      } else if seg.rst {
        ConnClose(c, Closed);
      } else if seg.fin && seg.ackFlag {
        rv := TakeFin(c, seg);
      } else {
        rv := HandleData(c, seg, keepAlive);
      }
    }

    // ---------------------------------------------------------------- the first segment

    /** A connect() that succeeded at once or is under way. */
    method AfterConnect(c: ZdtunConn, seg: Segment, done: bool, hello: Option<SockError>) returns (rv: int)
      requires Valid() && c in table && c.sock.Some?
      modifies `allFds, `writeFds, `numOpen, c
      ensures Valid() && Outcome(View(c), rv) == AfterConnectSpec(c.env, old(View(c)), seg, done, hello)
      ensures Touched(old(c.sock), c.sock, old(allFds), allFds, old(writeFds), writeFds)
      ensures c.tuple == old(c.tuple) && c.tstamp == old(c.tstamp)
    {
      hide Valid, Touched, SocketSyn, Has;
      ghost var v := View(c);
      c.tcp := c.tcp.(clientSeq := Wrap32(seg.seqNo + 1), zdtunSeq := ISS);
      c.seen := c.seen.(isn := seg.seqNo);
      assert View(c) == v.(clientSeq := Wrap32(seg.seqNo + 1), zdtunSeq := ISS, isn := seg.seqNo);
      hide View, ZdtunConn.View;
      if done {
        rv := TcpSocketSyn(c, hello);
      } else {
        InProgressNow(c);
        rv := 0;
      }
    }

    /** The socket becomes writable once it is connected. */
    method InProgressNow(c: ZdtunConn)
      requires Valid() && c in table && c.sock.Some?
      modifies `allFds, `writeFds, `numOpen, c
      ensures Valid() && View(c) == old(View(c)).(status := Connecting, inWrite := true)
      ensures Touched(old(c.sock), c.sock, old(allFds), allFds, old(writeFds), writeFds)
      ensures c.tuple == old(c.tuple) && c.tstamp == old(c.tstamp)
    {
      hide Valid, Touched;
      TouchedSets(c.sock, allFds, writeFds);
      c.status := Connecting;
      WatchWrite(c, true);
    }

    /** What the client's SYN says, and connect(). */
    method SetUp(c: ZdtunConn, seg: Segment, connect: ConnectResult, hello: Option<SockError>) returns (rv: int)
      requires Valid() && c in table && c.sock.Some?
      modifies `allFds, `writeFds, `numOpen, c
      ensures Valid() && Outcome(View(c), rv) == SetUpSpec(c.env, old(View(c)), seg, connect, hello)
      ensures Touched(old(c.sock), c.sock, old(allFds), allFds, old(writeFds), writeFds)
      ensures c.tuple == old(c.tuple) && c.tstamp == old(c.tstamp)
    {
      hide Valid, Touched, AfterConnectSpec, CloseOnError, Has, Shl;
      ghost var v := View(c);
      var mss, scale := TcpOptions.ParseOptions(seg.options, c.env.defaultMss);
      c.tcp := c.tcp.(window := Shl(seg.win, scale), scale := scale, mss := mss);
      assert View(c) == v.(window := Shl(seg.win, scale), scale := scale, mss := mss);
      hide View, ZdtunConn.View, TcpOptions.Parse;
      if connect.Failed? {
        var _ := CloseWithSocketError(c, connect.e);
        rv := 0;
      } else {
        rv := AfterConnect(c, seg, connect.Done?, hello);
      }
    }

    /** The part of handle_tcp_fwd for a new connection; `fd` is what socket() would return. */
    method OpenTcp(c: ZdtunConn, seg: Segment, fd: Option<nat>, connect: ConnectResult, hello: Option<SockError>) returns (rv: int)
      requires Valid() && c in table && c.sock == None
      requires fd.Some? ==> !IsLive(SocksOf(table), fd.value)
      modifies `allFds, `writeFds, `numOpen, `maxFd, c
      ensures Valid()
      ensures Outcome(View(c), rv) ==
              OpenForSyn(c.env, old(View(c)), seg, SynResult(CanOpen(old(numOpen), fd), connect, hello))
      ensures Opened(None, fd, c.sock, old(allFds), allFds, old(writeFds), writeFds)
      ensures c.tuple == old(c.tuple) && c.tstamp == old(c.tstamp)
    {
      hide Valid, SetUpSpec, SocksOf, Touched;
      ghost var v := View(c);
      OpenCases(c.env, v, seg, SynResult(CanOpen(numOpen, fd), connect, hello));
      hide OpenForSyn;
      var ok := OpenSocket(c, fd);
      if ok {
        assert View(c) == v.(open := true, inRead := true);
        hide View, ZdtunConn.View, Has;
        rv := SetUp(c, seg, connect, hello);
        OpenedThenTouched(fd.value, c.sock, old(allFds), allFds, old(writeFds), writeFds);
      } else {
        c.status := SocketError;
        rv := -1;
      }
    }

    /** handle_tcp_fwd. */
    method HandleTcpFwd(c: ZdtunConn, seg: Segment, fd: Option<nat>, connect: ConnectResult, hello: Option<SockError>)
      returns (rv: int)
      requires Valid() && c in table && (c.status == New ==> c.sock == None)
      requires fd.Some? ==> !IsLive(SocksOf(table), fd.value)
      modifies `allFds, `writeFds, `numOpen, `maxFd, c
      ensures Valid()
      ensures Outcome(View(c), rv) ==
              TcpProxy.HandleTcpFwd(c.env, old(View(c)), seg, SynResult(CanOpen(old(numOpen), fd), connect, hello))
      ensures Opened(old(c.sock), fd, c.sock, old(allFds), allFds, old(writeFds), writeFds)
      ensures c.tuple == old(c.tuple) && c.tstamp == old(c.tstamp)
    {
      hide Valid, OpenForSyn, TakeSegment, CloseConn, SocksOf, Touched, View, Opened, IsLive;
      ViewStatus(c);
      hide ZdtunConn.View;
      TouchedNot(c.sock, allFds, writeFds);
      TouchedIsOpened(c.sock, fd, c.sock, allFds, allFds, writeFds, writeFds);
      if seg.urg {
        rv := FailWith(c, Error);
        TouchedIsOpened(old(c.sock), fd, c.sock, old(allFds), allFds, old(writeFds), writeFds);
      } else if c.status == Connecting {
        rv := 0;
      } else if c.status == New {
        rv := OpenTcp(c, seg, fd, connect, hello);
      } else {
        rv := HandleSegment(c, seg);
        TouchedIsOpened(old(c.sock), fd, c.sock, old(allFds), allFds, old(writeFds), writeFds);
      }
    }

    /** zdtun_forward for TCP, and the close that follows a failure. */
    method ForwardTcp(c: ZdtunConn, seg: Segment, fd: Option<nat>, connect: ConnectResult, hello: Option<SockError>, now: int)
      returns (rv: int)
      requires Valid() && c in table && (c.status == New ==> c.sock == None)
      requires fd.Some? ==> !IsLive(SocksOf(table), fd.value)
      modifies `allFds, `writeFds, `numOpen, `maxFd, c
      ensures Valid()
      ensures View(c) == Forward(c.env, old(View(c)), seg, SynResult(CanOpen(old(numOpen), fd), connect, hello))
      ensures rv == ForwardRv(c.env, old(View(c)), seg, SynResult(CanOpen(old(numOpen), fd), connect, hello))
      ensures Opened(old(c.sock), fd, c.sock, old(allFds), allFds, old(writeFds), writeFds)
      ensures c.tuple == old(c.tuple) && c.tstamp == if rv == 0 && !Dead(old(c.status)) then now else old(c.tstamp)
    {
      hide Valid, CloseConn, SocksOf, Touched, View, TcpProxy.HandleTcpFwd, Opened, IsLive;
      ViewStatus(c);
      TouchedNot(c.sock, allFds, writeFds);
      TouchedIsOpened(c.sock, fd, c.sock, allFds, allFds, writeFds, writeFds);
      rv := 0;
      if !Dead(c.status) {
        rv := HandleTcpFwd(c, seg, fd, connect, hello);
        label L:
        if rv == 0 {
          SetTime(c, now);
        } else {
          ConnClose(c, Error);
          OpenedThenClosed(old(c.sock), fd, old@L(c.sock), c.sock, old(allFds), old@L(allFds), allFds,
                           old(writeFds), old@L(writeFds), writeFds);
        }
      }
    }

    /** The time of the last packet. */
    method SetTime(c: ZdtunConn, now: int)
      requires Valid()
      modifies c`tstamp
      ensures Valid() && View(c) == old(View(c)) && c.tstamp == now
    {
      hide Valid, Has;
      c.tstamp := now;
    }

    // ---------------------------------------------------------------- socket writable

    /** The loop of handle_queued_tcp_data: items are offered in turn until one is not taken whole. */
    method SendQueue(c: ZdtunConn, sends: nat -> SendResult) returns (sent: nat, failed: Option<SockError>)
      requires Valid()
      modifies c`tcp, c`seen
      ensures Valid() && sent == |Drain(old(c.tcp.queue), sends, 0).sent| && failed == Drain(old(c.tcp.queue), sends, 0).error
      ensures c.tcp == old(c.tcp).(queue := Drain(old(c.tcp.queue), sends, 0).queue)
      ensures c.seen == old(c.seen).(given := old(c.seen.given) + Drain(old(c.tcp.queue), sends, 0).sent)
    {
      hide Valid, Drain;
      var i, stop := 0, false;
      sent, failed := 0, None;
      ghost var bytesSent: bytes := [];
      ghost var all := Drain(c.tcp.queue, sends, 0);
      assert all == Drained(all.queue, bytesSent + all.sent, all.error);
      while c.tcp.queue != [] && !stop
        invariant Valid()
        invariant c.tcp == old(c.tcp).(queue := c.tcp.queue)
        invariant c.seen == old(c.seen).(given := old(c.seen.given) + bytesSent)
        invariant sent == |bytesSent|
        invariant !stop ==> failed == None && (var d := Drain(c.tcp.queue, sends, i); all == Drained(d.queue, bytesSent + d.sent, d.error))
        invariant stop ==> all == Drained(c.tcp.queue, bytesSent, failed)
        decreases |c.tcp.queue|, !stop
      {
        var item, rest := c.tcp.queue[0], c.tcp.queue[1..];
        var toSend := |item.Rest()|;
        DrainStep(c.tcp.queue, sends, i);
        ghost var d := Drain(rest, sends, i + 1);
        match sends(i) {
          case SendFailed(e) =>
            stop, failed := true, Some(e);
          case Again =>
            stop := true;
          case Sent(n) =>
            var whole := n >= toSend;
            ghost var part := if whole then item.Rest() else item.Rest()[..n];
            c.tcp := c.tcp.(queue := if whole then rest else [item.(sofar := item.sofar + n)] + rest);
            c.seen := c.seen.(given := c.seen.given + if whole then item.Rest() else item.Rest()[..n]);
            sent := sent + Min(n, toSend);
            ConcatAssoc(old(c.seen.given), bytesSent, part);
            ConcatAssoc(bytesSent, part, d.sent);
            bytesSent := bytesSent + part;
            stop := !whole;
        }
        i := i + 1;
      }
      DrainOfNothing(sends, i);
    }

    /** handle_queued_tcp_data. */
    method HandleQueuedTcpData(c: ZdtunConn, sends: nat -> SendResult) returns (rv: int)
      requires Valid() && c in table && c.sock.Some?
      modifies `allFds, `writeFds, `numOpen, c
      ensures Valid() && Outcome(View(c), rv) == Flush(c.env, old(View(c)), sends)
      ensures Touched(old(c.sock), c.sock, old(allFds), allFds, old(writeFds), writeFds)
      ensures c.tuple == old(c.tuple) && c.tstamp == old(c.tstamp)
    {
      hide Valid, Touched, Drain, CloseOnError, TcpProxy.SendAck, Has;
      ghost var v := View(c);
      var sent, failed := SendQueue(c, sends);
      ghost var d := Drain(v.queue, sends, 0);
      assert View(c) == v.(queue := d.queue, given := v.given + d.sent);
      hide View, ZdtunConn.View;
      hide TcpProxy.AfterSend;
      if failed.Some? {
        rv := CloseWithSocketError(c, failed.value);
      } else {
        rv := AfterSend(c, sent);
      }
    }

    /** What was sent is acknowledged, and the socket is left alone once nothing is queued. */
    method AfterSend(c: ZdtunConn, sent: nat) returns (rv: int)
      requires Valid() && c in table && c.sock.Some?
      modifies `allFds, `writeFds, `numOpen, c
      ensures Valid() && Outcome(View(c), rv) == TcpProxy.AfterSend(c.env, old(View(c)), sent)
      ensures Touched(old(c.sock), c.sock, old(allFds), allFds, old(writeFds), writeFds)
      ensures c.tuple == old(c.tuple) && c.tstamp == old(c.tstamp)
    {
      hide Valid, Touched, TcpProxy.SendAck, TcpProxy.SendToClient;
      ghost var v := View(c);
      TouchedNot(c.sock, allFds, writeFds);
      TouchedSets(c.sock, allFds, writeFds);
      if c.tcp.queue == [] {
        WatchWrite(c, false);
      }
      label L:
      assert View(c) == v.(inWrite := v.inWrite && v.queue != []);
      hide Has;
      rv := 0;
      if sent > 0 {
        rv := AckSent(c, sent);
        TouchedTwice(old(c.sock), old@L(c.sock), c.sock, old(allFds), old@L(allFds), allFds, old(writeFds), old@L(writeFds), writeFds);
      }
    }

    method AckSent(c: ZdtunConn, sent: nat) returns (rv: int)
      requires Valid() && c in table
      modifies `allFds, `writeFds, `numOpen, c
      ensures Valid() && Outcome(View(c), rv) == TcpProxy.SendAck(c.env, Counted(old(View(c)), sent))
      ensures Touched(old(c.sock), c.sock, old(allFds), allFds, old(writeFds), writeFds)
      ensures c.tuple == old(c.tuple) && c.tstamp == old(c.tstamp)
    {
      hide Valid, Touched, TcpProxy.SendToClient, Has;
      ghost var v := View(c);
      c.tcp := c.tcp.(clientSeq := Wrap32(c.tcp.clientSeq + sent), qsize := Wrap32(c.tcp.qsize - sent));
      assert View(c) == Counted(v, sent);
      hide View, ZdtunConn.View;
      rv := SendEmpty(c, Ack);
    }

    /** handle_tcp_connect_async. */
    method HandleTcpConnectAsync(c: ZdtunConn, r: AsyncResult, hello: Option<SockError>) returns (rv: int)
      requires Valid() && c in table && c.sock.Some?
      modifies `allFds, `writeFds, `numOpen, c
      ensures Valid() && Outcome(View(c), rv) == ConnectAsync(c.env, old(View(c)), r, hello)
      ensures Touched(old(c.sock), c.sock, old(allFds), allFds, old(writeFds), writeFds)
      ensures c.tuple == old(c.tuple) && c.tstamp == old(c.tstamp)
    {
      hide Valid, Touched, SocketSyn, CloseConn, CloseOnError, View, ZdtunConn.View;
      match r
      case SockOptFailed => rv := FailWith(c, SocketError);
      case AsyncDone => rv := TcpSocketSyn(c, hello);
      case AsyncFailed(e) =>
        var _ := CloseWithSocketError(c, e);
        rv := -1;
    }

    // ---------------------------------------------------------------- socket readable

    /** tcp_socket_fin_ack, once. */
    method FinAckOnce(c: ZdtunConn)
      requires Valid() && c in table
      modifies `allFds, `writeFds, `numOpen, c
      ensures Valid() && View(c) == FinSent(c.env, old(View(c)))
      ensures Touched(old(c.sock), c.sock, old(allFds), allFds, old(writeFds), writeFds)
      ensures c.tuple == old(c.tuple) && c.tstamp == old(c.tstamp)
    {
      hide Valid, Touched, TcpProxy.SendToClient, Has;
      TouchedNot(c.sock, allFds, writeFds);
      if !c.tcp.finAckSent {
        var rv := SendEmpty(c, FinAck);
        c.tcp := c.tcp.(zdtunSeq := if rv == 0 then Wrap32(c.tcp.zdtunSeq + 1) else c.tcp.zdtunSeq, finAckSent := true);
      }
    }

    /** The server closed. */
    method HandleEof(c: ZdtunConn)
      requires Valid() && c in table
      modifies `allFds, `writeFds, `numOpen, c
      ensures Valid() && View(c) == ServerEof(c.env, old(View(c)))
      ensures Touched(old(c.sock), c.sock, old(allFds), allFds, old(writeFds), writeFds)
      ensures c.tuple == old(c.tuple) && c.tstamp == old(c.tstamp)
    {
      hide Valid, Touched, CloseConn, FinSent;
      EofCases(c.env, View(c));
      hide ServerEof;
      var clientClosed := c.tcp.clientClosed;
      FinAckOnce(c);
      label L:
      ghost var v := View(c);
      TouchedClosed(c.sock, allFds, writeFds);
      DropSocket(c);
      label M:
      FinKeepsClosed(c.env, old(View(c)));
      assert c.tcp.clientClosed == clientClosed;
      hide View, ZdtunConn.View, Has;
      TouchedTwice(old(c.sock), old@L(c.sock), c.sock, old(allFds), old@L(allFds), allFds, old(writeFds), old@L(writeFds), writeFds);
      if c.tcp.clientClosed {
        ConnClose(c, Closed);
        TouchedTwice(old(c.sock), old@M(c.sock), c.sock, old(allFds), old@M(allFds), allFds, old(writeFds), old@M(writeFds), writeFds);
      }
    }

    /** Bytes of the SOCKS5 handshake. */
    method HandshakeBytes(c: ZdtunConn, d: bytes, fail: Option<SockError>) returns (rv: int)
      requires Valid() && c in table
      modifies `allFds, `writeFds, `numOpen, c
      ensures Valid() && Outcome(View(c), rv) == HandshakeBytesSpec(c.env, old(View(c)), d, fail)
      ensures Touched(old(c.sock), c.sock, old(allFds), allFds, old(writeFds), writeFds)
      ensures c.tuple == old(c.tuple) && c.tstamp == old(c.tstamp)
    {
      hide Valid, Touched, Socks5Reply, TcpProxy.SendSynAck, View, ZdtunConn.View;
      CountHandshake(c, d);
      rv := HandleSocks5Reply(c, d, fail);
      label L:
      ViewS5(c);
      if rv == 0 && c.s5 == Established {
        rv := SendSynAck(c);
        TouchedTwice(old(c.sock), old@L(c.sock), c.sock, old(allFds), old@L(allFds), allFds, old(writeFds), old@L(writeFds), writeFds);
      }
    }

    method CountHandshake(c: ZdtunConn, d: bytes)
      requires Valid()
      modifies c`seen
      ensures Valid()
      ensures View(c) == old(View(c)).(fromServer := old(View(c)).fromServer + d, handshake := old(View(c)).handshake + |d|)
    {
      hide Valid, Has;
      c.seen := c.seen.(fromServer := c.seen.fromServer + d, handshake := c.seen.handshake + |d|);
    }

    /** Server bytes for the client. */
    method RelayBytes(c: ZdtunConn, d: bytes, last: bool) returns (rv: int)
      requires Valid() && c in table && c.sock.Some?
      modifies `allFds, `writeFds, `numOpen, c
      ensures Valid() && Outcome(View(c), rv) == RelayBytesSpec(c.env, old(View(c)), d, last)
      ensures Touched(old(c.sock), c.sock, old(allFds), allFds, old(writeFds), writeFds)
      ensures c.tuple == old(c.tuple) && c.tstamp == old(c.tstamp)
    {
      hide Valid, Touched, Relay, Has, CloseConn;
      ghost var v := View(c);
      c.seen := c.seen.(fromServer := c.seen.fromServer + d);
      ghost var w := v.(fromServer := v.fromServer + d);
      assert View(c) == w && w.window == c.tcp.window;
      hide View, ZdtunConn.View;
      RelayCases(c.env, w, d, last);
      if c.tcp.window < |d| {
        rv := FailWith(c, Error);
      } else {
        rv := RelayFitting(c, d, last);
      }
    }

    method RelayFitting(c: ZdtunConn, d: bytes, last: bool) returns (rv: int)
      requires Valid() && c in table && c.sock.Some? && |d| <= c.tcp.window
      modifies `allFds, `writeFds, `numOpen, c
      ensures Valid() && Outcome(View(c), rv) == Relay(c.env, old(View(c)), d, last)
      ensures Touched(old(c.sock), c.sock, old(allFds), allFds, old(writeFds), writeFds)
      ensures c.tuple == old(c.tuple) && c.tstamp == old(c.tstamp)
    {
      hide Valid, Touched, TcpProxy.SendToClient, View, Relay;
      ViewRoom(c);
      RelayFits(c.env, View(c), d, last);
      var p := BuildReply(c, if last then PushAck else Ack, d);
      SentOpen(c.env, View(c), p);
      rv := SendToClient(c, p);
      label L:
      ViewRoom(c);
      hide ZdtunConn.View;
      if rv == 0 {
        RelayRest(c, |d|);
        TouchedTwice(old(c.sock), old@L(c.sock), c.sock, old(allFds), old@L(allFds), allFds, old(writeFds), old@L(writeFds), writeFds);
      } else {
        rv := -1;
      }
    }

    lemma ViewRoom(c: ZdtunConn)
      ensures View(c).open == c.sock.Some? && View(c).window == c.tcp.window
    {
    }

    /** The window shrinks by what was sent, and at 0 the socket is left alone. */
    method RelayRest(c: ZdtunConn, n: nat)
      requires Valid() && c in table && c.sock.Some? && n <= c.tcp.window
      modifies `allFds, `writeFds, `numOpen, c
      ensures Valid() && View(c) == Relayed(old(View(c)), n)
      ensures Touched(old(c.sock), c.sock, old(allFds), allFds, old(writeFds), writeFds)
      ensures c.tuple == old(c.tuple) && c.tstamp == old(c.tstamp)
    {
      hide Valid, Touched;
      TouchedNot(c.sock, allFds, writeFds);
      TouchedSets(c.sock, allFds, writeFds);
      c.tcp := c.tcp.(zdtunSeq := Wrap32(c.tcp.zdtunSeq + n), window := c.tcp.window - n);
      if c.tcp.window == 0 {
        WatchRead(c, false);
      }
    }

    /** handle_tcp_reply. */
    method HandleTcpReply(c: ZdtunConn, r: RecvResult, fail: Option<SockError>) returns (rv: int)
      requires Valid() && c in table && c.sock.Some?
      modifies `allFds, `writeFds, `numOpen, c
      ensures Valid() && Outcome(View(c), rv) == Readable(c.env, old(View(c)), r, fail)
      ensures Touched(old(c.sock), c.sock, old(allFds), allFds, old(writeFds), writeFds)
      ensures c.tuple == old(c.tuple) && c.tstamp == old(c.tstamp)
    {
      hide Valid, Touched, CloseOnError, ServerEof, HandshakeBytesSpec, RelayBytesSpec;
      var inProgress := c.mode == Socks5 && c.s5 != Established;
      assert inProgress == View(c).Socks5InProgress();
      hide View, ZdtunConn.View;
      ReadableCases(c.env, View(c), r, fail);
      hide Readable;
      match r
      case RecvFailed(e) => rv := CloseWithSocketError(c, e);
      case Eof =>
        HandleEof(c);
        rv := 0;
      case Data(d, last) =>
        if inProgress {
          rv := HandshakeBytes(c, d, fail);
        } else {
          rv := RelayBytes(c, d, last);
        }
    }

    // ---------------------------------------------------------------- UDP and ICMP

    /** handle_udp_reply and handle_icmp_reply. */
    method HandleDatagram(c: ZdtunConn, d: Datagram, now: int) returns (rv: int)
      requires Valid() && c in table
      modifies `allFds, `writeFds, `numOpen, c
      ensures Valid() && Outcome(View(c), rv) == DatagramReply(c.env, old(View(c)), d)
      ensures Touched(old(c.sock), c.sock, old(allFds), allFds, old(writeFds), writeFds)
      ensures c.tuple == old(c.tuple) && c.tstamp == ReplyAt(c.env, old(View(c)), d, now, old(c.tstamp))
    {
      ViewService(c);
      hide Valid, Touched, CloseConn, CloseOnError, TcpProxy.SendToClient, View, ZdtunConn.View, AfterAnswer, P.IsEcho, ServiceOf;
      match d
      case RecvError(e) =>
        var _ := CloseWithSocketError(c, e);
        rv := -1;
      case Message(m) =>
        if c.key.Transport() == Icmp && |m| < P.ICMP_HEADER_LEN {
          ConnClose(c, Error);
          rv := -1;
        } else if c.key.Transport() == Icmp && !P.IsEcho(m[0]) {
          ConnClose(c, Error);
          rv := 0;
        } else if c.key.Transport() == Icmp {
          SetTime(c, now);
          rv := RelayDatagram(c, m);
        } else {
          rv := RelayDatagram(c, m);
          if rv == 0 {
            SetTime(c, now);
          }
        }
    }

    lemma ViewService(c: ZdtunConn)
      ensures View(c).service == ServiceOf(c.key) && View(c).dns == c.pendingQueries
      ensures ServiceOf(c.key) == Echo <==> c.key.Transport() == Icmp
      ensures ServiceOf(c.key) == Dns <==> c.key.Transport() == Udp && c.key.dstPort == [0, 53]
    {
    }

    method RelayDatagram(c: ZdtunConn, m: bytes) returns (rv: int)
      requires Valid() && c in table
      modifies `allFds, `writeFds, `numOpen, c
      ensures Valid()
      ensures Outcome(View(c), rv) == var o := TcpProxy.SendToClient(c.env, old(View(c)), Reply(old(View(c)), Kind.Datagram, m));
                                      Outcome(if o.rv == 0 then AfterAnswer(c.env, o.c, m) else o.c, o.rv)
      ensures rv == if c.env.accepts(old(View(c).sends)) then 0 else -1
      ensures Touched(old(c.sock), c.sock, old(allFds), allFds, old(writeFds), writeFds)
      ensures c.tuple == old(c.tuple) && c.tstamp == old(c.tstamp)
    {
      hide Valid, Touched, CloseConn, TcpProxy.SendToClient, View, ZdtunConn.View, AfterAnswer;
      var p := BuildReply(c, Kind.Datagram, m);
      SendCases(c.env, View(c), p);
      rv := SendToClient(c, p);
      label L:
      if rv == 0 {
        CheckDnsPurge(c, m);
        TouchedTwice(old(c.sock), old@L(c.sock), c.sock, old(allFds), old@L(allFds), allFds, old(writeFds), old@L(writeFds), writeFds);
      }
    }

    /** check_dns_purge: the answer to the last pending query closes the connection. */
    method CheckDnsPurge(c: ZdtunConn, m: bytes)
      requires Valid() && c in table
      modifies `allFds, `writeFds, `numOpen, c
      ensures Valid() && View(c) == AfterAnswer(c.env, old(View(c)), m)
      ensures Touched(old(c.sock), c.sock, old(allFds), allFds, old(writeFds), writeFds)
      ensures c.tuple == old(c.tuple) && c.tstamp == old(c.tstamp)
    {
      ViewService(c);
      hide Valid, Touched, CloseConn, View, ZdtunConn.View, ServiceOf, TakenForAnswer;
      TouchedNot(c.sock, allFds, writeFds);
      if |m| < DNS_PACKET_LEN || c.key.Transport() != Udp || c.key.dstPort != [0, 53] {
        return;
      }
      if TakenForAnswer(m) && c.pendingQueries > 0 {
        SetPending(c, c.pendingQueries - 1);
        if c.pendingQueries == 0 {
          ConnClose(c, Closed);
        }
      }
    }

    method SetPending(c: ZdtunConn, n: byte)
      requires Valid()
      modifies c`pendingQueries
      ensures Valid() && c.pendingQueries == n && View(c) == old(View(c)).(dns := n)
    {
      hide Valid, Has;
      c.pendingQueries := n;
    }

    /** check_dns_request. */
    method CheckDnsRequest(c: ZdtunConn, m: bytes)
      requires Valid()
      modifies c`pendingQueries
      ensures Valid() && View(c) == AfterQuery(old(View(c)), m)
    {
      ViewService(c);
      hide Valid, View, ZdtunConn.View, ServiceOf, TakenForAnswer;
      if |m| < DNS_PACKET_LEN || c.key.Transport() != Udp || c.key.dstPort != [0, 53] {
        return;
      }
      if !TakenForAnswer(m) {
        SetPending(c, (c.pendingQueries + 1) % 0x100);
      }
    }

    /** The socket of a UDP or ICMP connection, for its first packet. */
    method OpenDatagram(c: ZdtunConn, fd: Option<nat>, setup: Option<SockError>) returns (rv: int)
      requires Valid() && c in table && c.sock == None
      requires fd.Some? ==> !IsLive(SocksOf(table), fd.value)
      modifies `allFds, `writeFds, `numOpen, `maxFd, c
      ensures Valid()
      ensures Outcome(View(c), rv) == DatagramOpen(c.env, old(View(c)), c.key.Transport(), CanOpen(old(numOpen), fd), setup)
      ensures Opened(None, fd, c.sock, old(allFds), allFds, old(writeFds), writeFds)
      ensures c.tuple == old(c.tuple) && c.tstamp == old(c.tstamp)
    {
      hide Valid, CloseOnError, SocksOf, Touched;
      ghost var v := View(c);
      var ok := OpenSocket(c, fd);
      if !ok {
        if c.key.Transport() == Icmp {
          c.status := SocketError;
        }
        rv := -1;
      } else {
        assert View(c) == v.(open := true, inRead := true);
        rv := BindOrConnected(c, setup);
        OpenedThenTouched(fd.value, c.sock, old(allFds), allFds, old(writeFds), writeFds);
      }
    }

    method BindOrConnected(c: ZdtunConn, setup: Option<SockError>) returns (rv: int)
      requires Valid() && c in table
      modifies `allFds, `writeFds, `numOpen, c
      ensures Valid() && Outcome(View(c), rv) == DatagramSetup(c.env, old(View(c)), c.key.Transport(), setup)
      ensures Touched(old(c.sock), c.sock, old(allFds), allFds, old(writeFds), writeFds)
      ensures c.tuple == old(c.tuple) && c.tstamp == old(c.tstamp)
    {
      hide Valid, CloseOnError, Touched, Has;
      TouchedNot(c.sock, allFds, writeFds);
      if c.key.Transport() == Udp && setup.Some? {
        var _ := CloseWithSocketError(c, setup.value);
        rv := -1;
      } else {
        c.status := Connected;
        rv := 0;
      }
    }

    method SendDatagram(c: ZdtunConn, fail: Option<SockError>, m: bytes) returns (rv: int)
      requires Valid() && c in table
      modifies `allFds, `writeFds, `numOpen, c
      ensures Valid() && Outcome(View(c), rv) == DatagramSent(c.env, old(View(c)), c.key.Transport(), fail, m)
      ensures Touched(old(c.sock), c.sock, old(allFds), allFds, old(writeFds), writeFds)
      ensures c.tuple == old(c.tuple) && c.tstamp == old(c.tstamp)
    {
      hide Valid, CloseOnError, Touched, View, ZdtunConn.View, AfterQuery;
      TouchedNot(c.sock, allFds, writeFds);
      rv := 0;
      if fail.Some? {
        var _ := CloseWithSocketError(c, fail.value);
        rv := if c.key.Transport() == Icmp then -1 else 0;
      } else {
        CountDatagram(c, m);
        CheckDnsRequest(c, m);
      }
    }

    method CountDatagram(c: ZdtunConn, m: bytes)
      requires Valid()
      modifies c`seen
      ensures Valid() && View(c) == old(View(c)).(requests := old(View(c)).requests + [m])
    {
      hide Valid, Has;
      c.seen := c.seen.(requests := c.seen.requests + [m]);
    }

    /** zdtun_forward for UDP and ICMP, and the close that follows a failure. For ICMP the source port of the tuple
        becomes the echo ID of the first packet, which for an echo reply is not the one it was found under. */
    method ForwardDatagram(c: ZdtunConn, echoId: bytes, fd: Option<nat>, setup: Option<SockError>, fail: Option<SockError>,
                           m: bytes, now: int)
      returns (rv: int)
      requires Valid() && c in table && (c.key.Transport() == Udp || c.key.Transport() == Icmp)
      requires c.status == New ==> c.sock == None
      requires fd.Some? ==> !IsLive(SocksOf(table), fd.value)
      modifies `allFds, `writeFds, `numOpen, `maxFd, c
      ensures Valid()
      ensures Outcome(View(c), rv) ==
              DatagramForward(c.env, old(View(c)), c.key.Transport(), CanOpen(old(numOpen), fd), setup, fail, m)
      ensures Opened(old(c.sock), fd, c.sock, old(allFds), allFds, old(writeFds), writeFds)
      ensures c.tuple == if Rewrites(old(c.status), c.key.Transport(), CanOpen(old(numOpen), fd)) then old(c.tuple).(srcPort := echoId)
                         else old(c.tuple)
      ensures c.tstamp == if rv == 0 && !Dead(old(c.status)) then now else old(c.tstamp)
    {
      hide Valid, CloseConn, SocksOf, Touched, View, ZdtunConn.View, DatagramSent, Opened, IsLive, CanOpen, DatagramStart;
      ViewStatus(c);
      DatagramCases(c.env, View(c), c.key.Transport(), CanOpen(numOpen, fd), setup, fail, m);
      hide DatagramForward;
      TouchedNot(c.sock, allFds, writeFds);
      TouchedIsOpened(c.sock, fd, c.sock, allFds, allFds, writeFds, writeFds);
      rv := 0;
      if !Dead(c.status) {
        rv := StartDatagram(c, echoId, fd, setup);
        label M:
        if rv == 0 {
          rv := SendDatagram(c, fail, m);
          OpenedThenClosed(old(c.sock), fd, old@M(c.sock), c.sock, old(allFds), old@M(allFds), allFds,
                           old(writeFds), old@M(writeFds), writeFds);
        }
        label L:
        if rv == 0 {
          SetTime(c, now);
        } else {
          ConnClose(c, Error);
          OpenedThenClosed(old(c.sock), fd, old@L(c.sock), c.sock, old(allFds), old@L(allFds), allFds,
                           old(writeFds), old@L(writeFds), writeFds);
        }
      }
    }

    /** The part for a new connection: its socket, and the echo ID. */
    method StartDatagram(c: ZdtunConn, echoId: bytes, fd: Option<nat>, setup: Option<SockError>) returns (rv: int)
      requires Valid() && c in table && (c.key.Transport() == Udp || c.key.Transport() == Icmp)
      requires c.status == New ==> c.sock == None
      requires fd.Some? ==> !IsLive(SocksOf(table), fd.value)
      modifies `allFds, `writeFds, `numOpen, `maxFd, c
      ensures Valid()
      ensures Outcome(View(c), rv) == DatagramStart(c.env, old(View(c)), c.key.Transport(), CanOpen(old(numOpen), fd), setup)
      ensures Opened(old(c.sock), fd, c.sock, old(allFds), allFds, old(writeFds), writeFds)
      ensures c.tuple == if Rewrites(old(c.status), c.key.Transport(), CanOpen(old(numOpen), fd)) then old(c.tuple).(srcPort := echoId)
                         else old(c.tuple)
      ensures c.tstamp == old(c.tstamp)
    {
      hide Valid, CloseOnError, SocksOf, Touched, View, ZdtunConn.View, Opened, IsLive, CanOpen;
      ViewStatus(c);
      TouchedNot(c.sock, allFds, writeFds);
      TouchedIsOpened(c.sock, fd, c.sock, allFds, allFds, writeFds, writeFds);
      rv := 0;
      if c.status == New {
        rv := OpenDatagram(c, fd, setup);
        if rv == 0 && c.key.Transport() == Icmp {
          SetEchoId(c, echoId);
        }
      }
    }

    method SetEchoId(c: ZdtunConn, echoId: bytes)
      requires Valid()
      modifies c`tuple
      ensures Valid() && View(c) == old(View(c)) && c.tuple == old(c.tuple).(srcPort := echoId)
    {
      hide Valid, Has;
      c.tuple := c.tuple.(srcPort := echoId);
    }

    // ---------------------------------------------------------------- the whole table

    /** The table as values, in order. */
    function Entries(): (r: seq<Entry>)
      reads `table, `allFds, `writeFds, table
      ensures |r| == |table| && forall i :: 0 <= i < |table| ==> r[i] == table[i].AsEntry(allFds, writeFds)
    {
      EntriesOf(table, allFds, writeFds)
    }

    /** What every operation of the tunnel keeps. */
    ghost predicate Sound()
      reads `table, `allFds, `writeFds, `numOpen, `maxFd, `numTcp, `numUdp, `numIcmp, table
    {
      Valid() && UniqueTuples(Entries()) && AllFit(Entries())
    }

    lemma Apart(i: nat)
      requires Valid() && i < |table|
      ensures forall j :: 0 <= j < |table| && j != i ==> table[j] != table[i]
    {
    }

    lemma SoundApart(i: nat)
      requires Sound() && i < |table|
      ensures forall j :: 0 <= j < |table| && j != i ==> table[j] != table[i]
    {
      hide Valid, UniqueTuples, AllFit;
      Apart(i);
    }

    lemma EntryKind(c: ZdtunConn, all: set<nat>, write: set<nat>)
      ensures c.AsEntry(all, write).conn.isTcp == (c.key.Transport() == Tcp)
    {
    }

    /** The sockets a handler of table[i] may touch are none of the other connections'. */
    lemma OthersApart(i: nat, fd: Option<nat>)
      requires Valid() && i < |table| && (fd.Some? ==> !IsLive(SocksOf(table), fd.value))
      ensures forall j :: 0 <= j < |table| && j != i && table[j].sock.Some? ==>
                table[j].sock.value !in Fd(table[i].sock) + Fd(fd)
    {
      hide CountProto, CountOpen;
      var s := SocksOf(table);
      forall j | 0 <= j < |table| && j != i && table[j].sock.Some?
        ensures table[j].sock.value !in Fd(table[i].sock) + Fd(fd)
      {
        assert s[j] == table[j].sock && s[i] == table[i].sock;
      }
    }

    /** A handler of table[i] leaves the other entries as they were `before`. */
    lemma OthersStay(i: nat, fd: Option<nat>, before: seq<Entry>, s0: Option<nat>, all0: set<nat>, write0: set<nat>)
      requires i < |table| && |before| == |table|
      requires forall j :: 0 <= j < |table| && j != i ==>
                 && before[j] == table[j].AsEntry(all0, write0)
                 && (table[j].sock.Some? ==> table[j].sock.value !in Fd(s0) + Fd(fd))
      requires Opened(s0, fd, table[i].sock, all0, allFds, write0, writeFds)
      ensures Entries() == before[i := table[i].AsEntry(allFds, writeFds)]
    {
      hide EntriesOf;
      var m := Fd(s0) + Fd(fd);
      forall j | 0 <= j < |table|
        ensures Entries()[j] == before[i := table[i].AsEntry(allFds, writeFds)][j]
      {
        if j != i {
          SameFds(all0, allFds, m, table[j].sock);
          SameFds(write0, writeFds, m, table[j].sock);
        }
      }
    }

    /** What select() reported about one connection. */
    method ServeConn(c: ZdtunConn, rd: bool, wr: bool, a: Answer, now: int) returns (rv: int)
      requires Valid() && c in table
      modifies `allFds, `writeFds, `numOpen, c
      ensures Valid() && Outcome(View(c), rv) == Served(c.env, old(View(c)), rd, wr, a)
      ensures Touched(old(c.sock), c.sock, old(allFds), allFds, old(writeFds), writeFds)
      ensures c.tuple == old(c.tuple) && c.tstamp == ServedAt(c.env, old(View(c)), rd, wr, a, now, old(c.tstamp))
    {
      hide Valid, Touched, Readable, Writable, DatagramReply, View;
      ViewOpen(c);
      ViewProto(c);
      hide ZdtunConn.View;
      TouchedNot(c.sock, allFds, writeFds);
      rv := 0;
      if c.sock.Some? {
        if rd {
          rv := ServeRead(c, a, now);
        } else if wr && c.key.Transport() == Tcp {
          rv := ServeWrite(c, a, now);
        }
      }
    }

    lemma ViewProto(c: ZdtunConn)
      ensures View(c).isTcp == (c.key.Transport() == Tcp) && View(c).queue == c.tcp.queue
    {
    }

    method ServeRead(c: ZdtunConn, a: Answer, now: int) returns (rv: int)
      requires Valid() && c in table && c.sock.Some?
      modifies `allFds, `writeFds, `numOpen, c
      ensures Valid()
      ensures Outcome(View(c), rv) == if c.key.Transport() == Tcp then Readable(c.env, old(View(c)), a.recv, a.fail)
                                      else DatagramReply(c.env, old(View(c)), a.datagram)
      ensures Touched(old(c.sock), c.sock, old(allFds), allFds, old(writeFds), writeFds)
      ensures c.tuple == old(c.tuple)
      ensures c.tstamp == if c.key.Transport() == Tcp then now else ReplyAt(c.env, old(View(c)), a.datagram, now, old(c.tstamp))
    {
      hide Valid, Touched, Readable, DatagramReply, View, ZdtunConn.View;
      if c.key.Transport() == Tcp {
        SetTime(c, now);
        rv := HandleTcpReply(c, a.recv, a.fail);
      } else {
        rv := HandleDatagram(c, a.datagram, now);
      }
    }

    method ServeWrite(c: ZdtunConn, a: Answer, now: int) returns (rv: int)
      requires Valid() && c in table && c.sock.Some?
      modifies `allFds, `writeFds, `numOpen, c
      ensures Valid() && Outcome(View(c), rv) == Writable(c.env, old(View(c)), a.sends, a.async, a.hello)
      ensures Touched(old(c.sock), c.sock, old(allFds), allFds, old(writeFds), writeFds)
      ensures c.tuple == old(c.tuple)
      ensures c.tstamp == if old(View(c)).queue == [] && a.async.AsyncDone? then now else old(c.tstamp)
    {
      hide Valid, Touched, Flush, ConnectAsync, View;
      ViewProto(c);
      hide ZdtunConn.View;
      if c.tcp.queue != [] {
        rv := HandleQueuedTcpData(c, a.sends);
      } else {
        rv := HandleTcpConnectAsync(c, a.async, a.hello);
        if a.async.AsyncDone? {
          SetTime(c, now);
        }
      }
    }

    /** The same for a table entry: nothing else changes. */
    method Serve(i: nat, rd: bool, wr: bool, a: Answer, now: int) returns (rv: int)
      requires Sound() && i < |table| && Reported(Entries()[i].conn, rd, wr, a)
      modifies `allFds, `writeFds, `numOpen, table[i]
      ensures Sound() && rv == Served(table[i].env, old(Entries()[i].conn), rd, wr, a).rv
      ensures var e := old(Entries()[i]);
              Entries() == old(Entries())[i := ServedEntry(e, rd, wr, a, now)]
    {
      hide Valid, Touched, ZdtunConn.View, Opened, EntriesOf, Served, AllFit, UniqueTuples;
      Apart(i);
      OthersApart(i, None);
      ghost var before, all0, write0 := Entries(), allFds, writeFds;
      var c := table[i];
      ghost var s0 := c.sock;
      EntryKind(c, all0, write0);
      rv := ServeConn(c, rd, wr, a, now);
      EntryKind(c, allFds, writeFds);
      TouchedIsOpened(s0, None, c.sock, all0, allFds, write0, writeFds);
      OthersStay(i, None, before, s0, all0, write0);
      FitEntry(before, i);
      ServedFits(c.env, before[i].conn, rd, wr, a);
      SoundUpdate(before, i, c.AsEntry(allFds, writeFds));
    }

    /** zdtun_handle_fd: connections are served in table order, up to the first that reports an error. */
    method HandleFd(rdFds: set<nat>, wrFds: set<nat>, answers: seq<Answer>, now: int) returns (rv: int, served: nat)
      requires Sound() && |answers| == |table| && rdFds <= allFds && wrFds <= writeFds
      requires forall j :: 0 <= j < |table| ==> RecvFits(Entries()[j].conn, answers[j])
      modifies `allFds, `writeFds, `numOpen, table
      ensures Sound() && (served < |table| ==> rv != 0)
      ensures Progress(old(Entries()), Entries(), FlagsOf(old(SocksOf(table)), rdFds), FlagsOf(old(SocksOf(table)), wrFds),
                       answers, now, served, rv)
    {
      hide Sound, Served, EntriesOf, ZdtunConn.View, Progress, SocksOf;
      rv, served := 0, 0;
      ghost var es, socks := Entries(), SocksOf(table);
      ghost var rd, wr := FlagsOf(socks, rdFds), FlagsOf(socks, wrFds);
      NoProgress(es, rd, wr, answers, now);
      forall j | 0 <= j < |table|
        ensures Reported(es[j].conn, Has(rdFds, socks[j]), Has(wrFds, socks[j]), answers[j])
      {
        WatchedIsReported(rdFds, allFds, socks[j]);
        WatchedIsReported(wrFds, writeFds, socks[j]);
        EntryWatch(table[j], allFds, writeFds);
      }
      while served < |table| && rv == 0
        invariant Sound() && served <= |table|
        invariant Progress(es, Entries(), rd, wr, answers, now, served, rv)
        invariant forall j :: served <= j < |table| ==> table[j].sock == socks[j]
        decreases |table| - served
      {
        var c := table[served];
        Rest(es, Entries(), rd, wr, answers, now, served);
        ghost var es1 := Entries();
        SoundApart(served);
        rv := Serve(served, Has(rdFds, c.sock), Has(wrFds, c.sock), answers[served], now);
        ProgressStep(es, es1, rd, wr, answers, now, served, Entries()[served], rv);
        served := served + 1;
      }
    }

    lemma EntryWatch(c: ZdtunConn, all: set<nat>, write: set<nat>)
      ensures c.AsEntry(all, write).conn.inWrite == Has(write, c.sock) && c.AsEntry(all, write).conn.inRead == Has(all, c.sock)
    {
    }

    /** One entry changed, and is again as an entry should be. */
    lemma SoundUpdate(before: seq<Entry>, i: nat, e: Entry)
      requires Valid() && i < |before| && UniqueTuples(before) && AllFit(before)
      requires Entries() == before[i := e] && e.key == before[i].key && Fits(e)
      requires e.tuple == before[i].tuple || e.tuple != e.key
      ensures Sound()
    {
      hide Valid, EntriesOf, Fits;
    }

    /** Every TCP connection of the table is in a state that a run of the machine of TcpProxy leads to: what RunIsReady,
        RunIsUp, RunIsDown, RunFlows, NothingPastTheEdge and HandshakeBeforeRelay say of that run holds of it. */
    lemma TableHoldsRuns(i: nat)
      requires Sound() && i < |table| && table[i].key.Transport() == Tcp
      ensures exists mode, events ::
                && D.PossibleRun(table[i].env, NewConn(true, mode), events)
                && View(table[i]) == Run(table[i].env, NewConn(true, mode), events)
      ensures D.Numbered(View(table[i])) && Ready(View(table[i]))
    {
      hide Valid, EntriesOf, UniqueTuples, Ready, D.Numbered;
      var c := table[i];
      EntryKind(c, allFds, writeFds);
      FitEntry(Entries(), i);
      var mode, events :| Reaches(c.env, mode, events, View(c));
      ReachesRun(c.env, mode, events, View(c));
    }

    /** The tuples in the table are pairwise distinct if and only if no two connections were opened by echo replies with
        the same tuple. */
    lemma TuplesAreDistinct()
      requires Sound()
      ensures DistinctTuples(Entries()) <==> !Doubled(Entries())
    {
      hide Valid, EntriesOf, UniqueTuples, AllFit, DistinctTuples, Doubled;
      DistinctUnlessDoubled(Entries());
    }

    // ---------------------------------------------------------------- packets from the client

    /** One handler ran on table[i], and kept everything but that entry. */
    lemma AfterHandler(i: nat, fd: Option<nat>, before: seq<Entry>, s0: Option<nat>, all0: set<nat>, write0: set<nat>)
      requires Valid() && i < |table| && |before| == |table| && UniqueTuples(before) && AllFit(before)
      requires forall j :: 0 <= j < |table| && j != i ==>
                 && before[j] == table[j].AsEntry(all0, write0)
                 && (table[j].sock.Some? ==> table[j].sock.value !in Fd(s0) + Fd(fd))
      requires Opened(s0, fd, table[i].sock, all0, allFds, write0, writeFds)
      requires before[i].key == table[i].key && Fits(table[i].AsEntry(allFds, writeFds))
      requires table[i].tuple == before[i].tuple || table[i].tuple != table[i].key
      ensures Sound() && Entries() == before[i := table[i].AsEntry(allFds, writeFds)]
    {
      hide Valid, Opened, EntriesOf, Fits, AllFit, UniqueTuples, ZdtunConn.View;
      OthersStay(i, fd, before, s0, all0, write0);
      SoundUpdate(before, i, table[i].AsEntry(allFds, writeFds));
    }

    /** A TCP segment for table[i]. */
    method ForwardSegment(i: nat, seg: Segment, fd: Option<nat>, connect: ConnectResult, hello: Option<SockError>, now: int)
      returns (rv: int)
      requires Sound() && i < |table| && table[i].key.Transport() == Tcp
      requires fd.Some? ==> !IsLive(SocksOf(table), fd.value)
      modifies `allFds, `writeFds, `numOpen, `maxFd, table[i]
      ensures Sound()
      ensures var e := old(Entries()[i]);
              var r := SynResult(CanOpen(old(numOpen), fd), connect, hello);
              Entries() == old(Entries())[i := SegmentEntry(e, seg, r, now)]
    {
      hide Valid, ZdtunConn.View, Opened, EntriesOf, Forward, ForwardRv, AllFit, UniqueTuples, SocksOf, IsLive, Ready, Reached, CanOpen;
      Apart(i);
      OthersApart(i, fd);
      ghost var before, all0, write0 := Entries(), allFds, writeFds;
      var c := table[i];
      ghost var s0 := c.sock;
      FitEntry(before, i);
      EntryKind(c, all0, write0);
      NewHasNoSocket(c);
      ghost var r := SynResult(CanOpen(numOpen, fd), connect, hello);
      ForwardFits(c.env, View(c), seg, r);
      EntryTimes(c, all0, write0);
      rv := ForwardTcp(c, seg, fd, connect, hello, now);
      EntryKind(c, allFds, writeFds);
      AfterHandler(i, fd, before, s0, all0, write0);
    }

    lemma NewHasNoSocket(c: ZdtunConn)
      requires Fits(c.AsEntry(allFds, writeFds))
      ensures c.status == New ==> c.sock == None
    {
    }

    /** A UDP or ICMP packet for table[i], which was found under its tuple; `echoId` is the echo ID in an ICMP packet. */
    method ForwardPacket(i: nat, echoId: bytes, fd: Option<nat>, setup: Option<SockError>, fail: Option<SockError>, m: bytes,
                         now: int)
      returns (rv: int)
      requires Sound() && i < |table| && (table[i].key.Transport() == Udp || table[i].key.Transport() == Icmp)
      requires table[i].tuple == table[i].key && (table[i].key.Transport() == Icmp ==> echoId == table[i].key.EchoId())
      requires fd.Some? ==> !IsLive(SocksOf(table), fd.value)
      modifies `allFds, `writeFds, `numOpen, `maxFd, table[i]
      ensures Sound()
      ensures var e := old(Entries()[i]);
              Entries() == old(Entries())[i := DatagramEntry(e, CanOpen(old(numOpen), fd), setup, fail, m, now)]
    {
      hide Valid, ZdtunConn.View, Opened, EntriesOf, DatagramForward, AllFit, UniqueTuples, SocksOf, IsLive, CanOpen;
      Apart(i);
      OthersApart(i, fd);
      ghost var before, all0, write0 := Entries(), allFds, writeFds;
      var c := table[i];
      ghost var s0, canOpen := c.sock, CanOpen(numOpen, fd);
      FitEntry(before, i);
      EntryKind(c, all0, write0);
      EntryTimes(c, all0, write0);
      NewHasNoSocket(c);
      DatagramForwardFits(c.env, View(c), c.key.Transport(), canOpen, setup, fail, m);
      rv := ForwardDatagram(c, echoId, fd, setup, fail, m, now);
      EntryKind(c, allFds, writeFds);
      AfterHandler(i, fd, before, s0, all0, write0);
    }

    /** zdtun_forward, for the packet `q` parsed from the buffer `mem`, on the entry a lookup found for it; and the close
        that follows a failure. */
    method ForwardFound(i: nat, mem: bytes, q: P.Parsed, k: Kernel, now: int, ghost n: nat, ghost ports: P.Ports)
      returns (rv: int)
      requires Sound() && i < |table| && table[i].tuple == table[i].key == q.tuple && W.Arrived(mem, n, ports, q)
      requires k.fd.Some? ==> !IsLive(SocksOf(table), k.fd.value)
      modifies `allFds, `writeFds, `numOpen, `maxFd, table[i]
      ensures Sound() && W.Readable(mem, q)
      ensures Entries() == old(Entries())[i := AfterPacket(old(Entries()[i]), mem, q, CanOpen(old(numOpen), k.fd), k, now)]
    {
      W.ArrivedIsReadable(mem, n, ports, q);
      hide *;
      EntryKey(table[i], allFds, writeFds);
      AfterPacketCases(Entries()[i], mem, q, CanOpen(numOpen, k.fd), k, now);
      if q.tuple.Transport() == Tcp {
        rv := ForwardSegment(i, W.SegmentOf(mem, q), k.fd, k.connect, k.hello, now);
      } else if q.tuple.Transport() == Udp {
        rv := ForwardPacket(i, [], k.fd, k.setup, k.fail, SentOf(mem, q), now);
      } else {
        W.EchoIdInTuple(mem, n, ports, q);
        rv := ForwardPacket(i, W.EchoId(mem, q), k.fd, k.setup, k.fail, SentOf(mem, q), now);
      }
    }

    // ---------------------------------------------------------------- removal from the table

    /** zdtun_conn_close on a table entry, as the capture engine calls it: the entry stays, closed and without a socket,
        and nothing else changes. */
    method CloseEntry(i: nat, st: Status)
      requires Sound() && i < |table|
      modifies `allFds, `writeFds, `numOpen, table[i]
      ensures Sound() && table[i].sock == None
      ensures numOpen == old(numOpen) - if old(table[i].sock).Some? then 1 else 0
      ensures var e := old(Entries()[i]);
              Entries() == old(Entries())[i := e.(conn := CloseConn(table[i].env, e.conn, st))]
    {
      hide Valid, ZdtunConn.View, Opened, EntriesOf, AllFit, UniqueTuples, SocksOf, IsLive, Ready, CloseConn, Touched;
      Apart(i);
      OthersApart(i, None);
      ghost var before, all0, write0, socks0 := Entries(), allFds, writeFds, SocksOf(table);
      var c := table[i];
      ghost var s0 := c.sock;
      FitEntry(before, i);
      EntryKind(c, all0, write0);
      EntryTimes(c, all0, write0);
      OpenCounted();
      ConnClose(c, st);
      EntryKind(c, allFds, writeFds);
      EntryTimes(c, allFds, writeFds);
      ClosedFits(c.env, before[i].conn, st);
      TouchedIsOpened(s0, None, c.sock, all0, allFds, write0, writeFds);
      AfterHandler(i, None, before, s0, all0, write0);
      ClosedHasNoSocket(c);
      assert SocksOf(table)[i := s0] == socks0;
      CountAfterClose(i, old(numOpen), s0);
    }

    /** destroy_conn. */
    method DestroyConn(i: nat)
      requires Sound() && i < |table|
      modifies `table, `allFds, `writeFds, `numOpen, `numTcp, `numUdp, `numIcmp, table[i]
      ensures Sound()
      ensures table == Without(old(table), i) && Entries() == Without(old(Entries()), i)
      ensures numOpen == old(numOpen) - if old(table[i].sock).Some? then 1 else 0
      ensures View(old(table[i])) == CloseConn(old(table[i]).env, old(View(table[i])), Closed)
    {
      hide Sound, ZdtunConn.View, CloseConn, Without, EntriesOf;
      SoundApart(i);
      EntryView(i);
      CloseEntry(i, Closed);
      EntryView(i);
      WithoutUpdated(old(Entries()), i, Entries()[i]);
      Drop(i);
    }

    lemma EntryView(i: nat)
      requires i < |table|
      ensures |Entries()| == |table| && Entries()[i].conn == View(table[i])
    {
    }

    lemma WithoutUpdated(es: seq<Entry>, i: nat, e: Entry)
      requires i < |es|
      ensures Without(es[i := e], i) == Without(es, i)
    {
    }

    /** num_tcp_conn and its kin, and HASH_DELETE. */
    method Drop(i: nat)
      requires Sound() && i < |table| && table[i].sock == None
      modifies `table, `numTcp, `numUdp, `numIcmp
      ensures Sound() && table == Without(old(table), i) && Entries() == Without(old(Entries()), i)
    {
      hide *;
      SoundFacts();
      ClosedIsNone(i);
      RemoveConn(table, i, allFds, writeFds);
      WithoutFits(Entries(), i);
      RemoveAccounted(SocksOf(table), allFds, writeFds, numOpen, maxFd, i);
      var t := table;
      WithoutAre(t, i, SocksOf(t));
      CountConn(t[i].key.Transport(), false);
      table := table[..i] + table[i + 1..];
      CountsDown(t, i);
      SoundParts();
    }

    /** What Sound() says, part by part. */
    lemma SoundFacts()
      requires Sound()
      ensures NoDup(table) && Accounted(SocksOf(table), allFds, writeFds, numOpen, maxFd)
      ensures UniqueTuples(Entries()) && AllFit(Entries()) && Entries() == EntriesOf(table, allFds, writeFds)
      ensures CountsAre(numTcp, numUdp, numIcmp, table)
    {
      hide NoDup, Accounted, SocksOf, UniqueTuples, AllFit, EntriesOf, CountProto;
    }

    lemma ClosedIsNone(i: nat)
      requires i < |table|
      ensures |SocksOf(table)| == |table| && SocksOf(table)[i] == table[i].sock
    {
      hide SocksOf;
    }

    /** The counter of a protocol goes up or down. */
    method CountConn(p: Proto, up: bool)
      modifies `numTcp, `numUdp, `numIcmp
      ensures numTcp == if p == Tcp then Count16(old(numTcp), up) else old(numTcp)
      ensures numUdp == if p == Udp then Count16(old(numUdp), up) else old(numUdp)
      ensures numIcmp == if p == Icmp then Count16(old(numIcmp), up) else old(numIcmp)
    {
      match p {
        case Tcp => numTcp := Count16(numTcp, up);
        case Udp => numUdp := Count16(numUdp, up);
        case Icmp => numIcmp := Count16(numIcmp, up);
        case Other =>
      }
    }

    /** The counters counted one entry of `t` down, which the table is without. */
    lemma CountsDown(t: seq<ZdtunConn>, i: nat)
      requires i < |t| && table == Without(t, i)
      requires exists a, b, c :: CountsAre(a, b, c, t) &&
                 var p := t[i].key.Transport();
                 && numTcp == (if p == Tcp then Count16(a, false) else a)
                 && numUdp == (if p == Udp then Count16(b, false) else b)
                 && numIcmp == (if p == Icmp then Count16(c, false) else c)
      ensures CountsAre(numTcp, numUdp, numIcmp, table)
    {
      hide CountProto;
      CountProtoWithout(t, i, Tcp);
      CountProtoWithout(t, i, Udp);
      CountProtoWithout(t, i, Icmp);
    }

    lemma OpenCounted()
      requires Valid()
      ensures numOpen == CountOpen(SocksOf(table))
    {
      hide CountOpen, SocksOf, CountProto;
    }

    lemma ClosedHasNoSocket(c: ZdtunConn)
      requires !View(c).open
      ensures c.sock == None
    {
    }

    /** Closing table[i] gave up at most its own socket. */
    lemma CountAfterClose(i: nat, n0: nat, s0: Option<nat>)
      requires Valid() && i < |table| && table[i].sock == None
      requires n0 == CountOpen(SocksOf(table)[i := s0])
      ensures numOpen == n0 - if s0.Some? then 1 else 0
    {
      hide SocksOf, CountProto;
      CountUpdate(SocksOf(table), i, s0);
    }

    // ---------------------------------------------------------------- purge

    /** The first loop of zdtun_purge_expired: closed and idle connections go. */
    method PurgeIdle(now: int)
      requires Sound()
      modifies `table, `allFds, `writeFds, `numOpen, `numTcp, `numUdp, `numIcmp, table
      ensures Sound()
      ensures Entries() == Filter(old(Entries()), Keep(old(Entries()), now))
      ensures table == Filter(old(table), Keep(old(Entries()), now)) && Within(table, old(table))
    {
      hide *;
      ghost var all, es, keep := table, Entries(), Keep(Entries(), now);
      var k := 0;
      ghost var n := 0;
      SweptStart(all, keep);
      SweptStart(es, keep);
      WithinSelf(all);
      while k < |table|
        invariant Sound() && n <= |all| && k == CountKept(keep[..n]) && Within(table, all)
        invariant Swept(table, all, keep, n) && Swept(Entries(), es, keep, n)
        decreases |all| - n
      {
        SweptStep(table, all, keep, n, k);
        SweptStep(Entries(), es, keep, n, k);
        KeepAt(es, now, n);
        WithinWithout(table, all, k);
        k := DestroyIfExpired(k, now);
        n := n + 1;
      }
      SweptEnd(table, all, keep, n, k);
      SweptEnd(Entries(), es, keep, n, k);
    }

    /** One round of the loop: the next index to look at. */
    method DestroyIfExpired(k: nat, now: int) returns (next: nat)
      requires Sound() && k < |table| == |Entries()|
      modifies `table, `allFds, `writeFds, `numOpen, `numTcp, `numUdp, `numIcmp, table[k]
      ensures Sound()
      ensures if Expired(old(Entries()[k]), now) then
                next == k && table == Without(old(table), k) && Entries() == Without(old(Entries()), k)
              else next == k + 1 && table == old(table) && Entries() == old(Entries())
    {
      hide *;
      var c := table[k];
      ExpiredEntry(c, allFds, writeFds, now);
      if Dead(c.status) || now >= Timeout(c.key.Transport()) + c.tstamp {
        DestroyConn(k);
        next := k;
      } else {
        next := k + 1;
      }
    }

    lemma ExpiredEntry(c: ZdtunConn, all: set<nat>, write: set<nat>, now: int)
      ensures Expired(c.AsEntry(all, write), now) <==> (Dead(c.status) || now >= Timeout(c.key.Transport()) + c.tstamp)
    {
    }

    lemma EntryTimes(c: ZdtunConn, all: set<nat>, write: set<nat>)
      ensures var e := c.AsEntry(all, write);
              e.conn.status == c.status && e.tstamp == c.tstamp && e.key == c.key && e.conn.open == c.sock.Some?
    {
    }

    /** Where a connection belongs in the list sorted so far: after the last one that is not later. */
    method FindPosition(sorted: seq<ZdtunConn>, tstamp: int) returns (at: nat)
      ensures at <= |sorted| && at == Position(EntriesOf(sorted, allFds, writeFds), tstamp)
    {
      hide EntriesOf, ZdtunConn.View, Position;
      ghost var es := EntriesOf(sorted, allFds, writeFds);
      at := |sorted|;
      assert es[..at] == es;
      while at > 0 && sorted[at - 1].tstamp > tstamp
        invariant at <= |sorted| && Position(es, tstamp) == Position(es[..at], tstamp)
      {
        PositionStep(es[..at], tstamp);
        EntryTimes(sorted[at - 1], allFds, writeFds);
        assert es[..at][..at - 1] == es[..at - 1];
        at := at - 1;
      }
      PositionStep(es[..at], tstamp);
      if at > 0 {
        EntryTimes(sorted[at - 1], allFds, writeFds);
      }
    }

    /** HASH_SORT by time of the last packet, which keeps the order of equal times. */
    method SortConns(all: seq<ZdtunConn>) returns (sorted: seq<ZdtunConn>)
      ensures EntriesOf(sorted, allFds, writeFds) == ByTime(EntriesOf(all, allFds, writeFds))
      ensures multiset(sorted) == multiset(all)
    {
      ghost var es := EntriesOf(all, allFds, writeFds);
      ByTimeStart(es, allFds, writeFds);
      hide *;
      sorted := [];
      var n := 0;
      while n < |all|
        invariant n <= |all| == |es|
        invariant EntriesOf(sorted, allFds, writeFds) == ByTime(es[..n])
        invariant multiset(sorted) == multiset(all[..n])
      {
        var c := all[n];
        var at := FindPosition(sorted, c.tstamp);
        ByTimeStep(es, n);
        EntryTimes(c, allFds, writeFds);
        InsertEntries(sorted, at, c, allFds, writeFds);
        assert all[..n + 1] == all[..n] + [c];
        sorted := Insert(sorted, at, c);
        n := n + 1;
      }
      assert all[..n] == all && es[..n] == es;
    }

    method SortByTime()
      requires Sound()
      modifies `table
      ensures Sound() && Entries() == ByTime(old(Entries())) && Within(table, old(table))
    {
      hide Sound, EntriesOf, ZdtunConn.View, ByTime, NoDup, CountProto, SocksOf, Accounted, UniqueTuples, AllFit, Within;
      var sorted := SortConns(table);
      WithinOrder(sorted, table);
      SoundInAnyOrder(sorted);
      table := sorted;
      SoundParts();
    }

    /** The order of the table does not matter. */
    lemma SoundInAnyOrder(sorted: seq<ZdtunConn>)
      requires Sound() && multiset(sorted) == multiset(table)
      ensures NoDup(sorted) && Accounted(SocksOf(sorted), allFds, writeFds, numOpen, maxFd)
      ensures CountsAre(numTcp, numUdp, numIcmp, sorted)
      ensures UniqueTuples(EntriesOf(sorted, allFds, writeFds)) && AllFit(EntriesOf(sorted, allFds, writeFds))
    {
      hide EntriesOf, AllFit, UniqueTuples, SocksOf, Accounted, CountProto, ZdtunConn.View;
      SoundDistinct();
      SameElements(table, sorted);
      SortedSocks(table, sorted);
      forall p
        ensures CountProto(sorted, p) == CountProto(table, p)
      {
        ProtoIsCardinality(table, p);
        ProtoIsCardinality(sorted, p);
        assert ProtoSet(table, p) == ProtoSet(sorted, p);
      }
      OrderDoesNotMatter(SocksOf(table), SocksOf(sorted), allFds, writeFds, numOpen, maxFd);
      SortedEntries(table, sorted, allFds, writeFds);
    }

    lemma SoundDistinct()
      requires Sound()
      ensures Distinct(SocksOf(table))
    {
      hide EntriesOf, AllFit, UniqueTuples, SocksOf, CountProto, CountOpen, NoDup;
    }

    lemma SoundParts()
      requires NoDup(table) && Accounted(SocksOf(table), allFds, writeFds, numOpen, maxFd)
      requires CountsAre(numTcp, numUdp, numIcmp, table)
      requires UniqueTuples(EntriesOf(table, allFds, writeFds)) && AllFit(EntriesOf(table, allFds, writeFds))
      ensures Sound()
    {
      hide EntriesOf, AllFit, UniqueTuples, SocksOf, Accounted, CountProto, ZdtunConn.View, NoDup;
    }

    /** num_open_sockets, counted over the entries. */
    lemma NumOpenCounts()
      requires Sound()
      ensures numOpen == OpenCount(Entries()) <= MAX_NUM_SOCKETS
    {
      hide EntriesOf, AllFit, UniqueTuples, SocksOf, CountProto, CountOpen, OpenCount;
      OpenCountIs(table, allFds, writeFds);
    }

    /** zdtun_purge_expired: closed and idle connections go, and if 128 sockets are still open, the connections idle for
        longest. */
    method PurgeExpired(now: int)
      requires Sound()
      modifies `table, `allFds, `writeFds, `numOpen, `numTcp, `numUdp, `numIcmp, table
      ensures Sound() && Entries() == Purged(old(Entries()), now)
      ensures Within(table, old(table))
    {
      hide *;
      ghost var es, all := Entries(), table;
      PurgeIdle(now);
      NumOpenCounts();
      PurgedCases(es, now);
      if numOpen >= MAX_NUM_SOCKETS {
        PurgeOldest(all);
      }
    }

    /** The forced purge; `all` holds every connection of the table, in any order. */
    method PurgeOldest(ghost all: seq<ZdtunConn>)
      requires Sound() && numOpen >= MAX_NUM_SOCKETS && Within(table, all)
      modifies `table, `allFds, `writeFds, `numOpen, `numTcp, `numUdp, `numIcmp, all
      ensures Sound() && old(numOpen) - NUM_SOCKETS_AFTER_PURGE <= |ByTime(old(Entries()))|
      ensures Entries() == ByTime(old(Entries()))[old(numOpen) - NUM_SOCKETS_AFTER_PURGE..]
      ensures Within(table, all)
    {
      hide *;
      PurgeSizes();
      NumOpenCounts();
      var toPurge: int := numOpen - NUM_SOCKETS_AFTER_PURGE;
      ghost var before := table;
      OpenFits(Entries());
      SortByTime();
      WithinTwice(table, before, all);
      DestroyFirst(toPurge, all);
    }

    method DestroyFirst(n: nat, ghost all: seq<ZdtunConn>)
      requires Sound() && n <= |Entries()| && Within(table, all)
      modifies `table, `allFds, `writeFds, `numOpen, `numTcp, `numUdp, `numIcmp, all
      ensures Sound() && n <= |old(Entries())| && Entries() == old(Entries())[n..] && Within(table, all)
    {
      hide *;
      var done := 0;
      ghost var es := Entries();
      DropNone(es);
      while done < n && table != []
        invariant Sound() && done <= n <= |es| && Entries() == es[done..]
        invariant Within(table, all)
        decreases n - done
      {
        WithinWithout(table, all, 0);
        DropOne(es, done);
        DestroyConn(0);
        done := done + 1;
      }
    }

    // ---------------------------------------------------------------- lookup

    /** HASH_FIND: the entry whose tuple is `t` both now and when it was entered, which the hash chain was chosen by. */
    method Find(t: Tuple) returns (r: Option<nat>)
      ensures r == FindEntry(Entries(), t)
    {
      hide *;
      var i := 0;
      ghost var es := Entries();
      while i < |table|
        invariant i <= |table| == |es| && forall j :: 0 <= j < i ==> es[j].key != t || es[j].tuple != t
      {
        EntryKey(table[i], allFds, writeFds);
        if table[i].key == t && table[i].tuple == t {
          FirstFound(es, t, i);
          return Some(i);
        }
        i := i + 1;
      }
      NoneFound(es, t);
      r := None;
    }

    lemma EntryKey(c: ZdtunConn, all: set<nat>, write: set<nat>)
      ensures c.AsEntry(all, write).key == c.key && c.AsEntry(all, write).tuple == c.tuple
      ensures c.AsEntry(all, write).conn.status == c.status && c.AsEntry(all, write).env == c.env
    {
    }

    /** HASH_ADD of a new connection, and the counter of its protocol. */
    method Add(c: ZdtunConn)
      requires Sound() && c !in table && c.sock == None && c.tuple == c.key && FromPacket(c.key)
      requires c.AsEntry(allFds, writeFds).conn == NewFor(c.key, c.mode)
      requires FindEntry(Entries(), c.key) == None
      modifies `table, `numTcp, `numUdp, `numIcmp
      ensures Sound() && table == old(table) + [c] && Entries() == old(Entries()) + [c.AsEntry(allFds, writeFds)]
    {
      hide *;
      SoundFacts();
      ghost var t := table;
      AppendAccounted(SocksOf(table), allFds, writeFds, numOpen, maxFd);
      AppendConn(table, c, allFds, writeFds);
      EntryKey(c, allFds, writeFds);
      AppendFits(Entries(), c.AsEntry(allFds, writeFds), c.mode);
      CountConn(c.key.Transport(), true);
      table := table + [c];
      CountsUp(t, c);
      SoundParts();
      SoundFacts();
    }

    /** The counters counted up the entry that `t` lacks. */
    lemma CountsUp(t: seq<ZdtunConn>, x: ZdtunConn)
      requires table == t + [x]
      requires exists a, b, c :: CountsAre(a, b, c, t) &&
                 var p := x.key.Transport();
                 && numTcp == (if p == Tcp then Count16(a, true) else a)
                 && numUdp == (if p == Udp then Count16(b, true) else b)
                 && numIcmp == (if p == Icmp then Count16(c, true) else c)
      ensures CountsAre(numTcp, numUdp, numIcmp, table)
    {
      hide CountProto;
      CountProtoAppend(t, x, Tcp);
      CountProtoAppend(t, x, Udp);
      CountProtoAppend(t, x, Icmp);
    }

    /** zdtun_lookup. A closed connection is never handed out; on_connection_open may refuse a new one (`allow`). */
    method Lookup(t: Tuple, create: bool, allow: bool, env: Env, mode: ProxyMode, now: int) returns (r: ZdtunConn?)
      requires Sound() && FromPacket(t)
      modifies `table, `allFds, `writeFds, `numOpen, `numTcp, `numUdp, `numIcmp, table
      ensures Sound() && Entries() == LookedUp(old(Entries()), t, create, allow, env, mode, now)
      ensures r == null <==> FindEntry(Entries(), t) == None
      ensures r != null ==> r in table && r.key == t && r.tuple == t && !Dead(r.status)
    {
      hide *;
      ghost var all := table;
      LookedUpCases(Entries(), t, create, allow, env, mode, now);
      r := FindLive(t);
      WithinMembers(table, all);
      if r == null && create {
        r := Create(t, allow, env, mode, now);
      }
    }

    /** HASH_FIND, and the removal of a closed connection found. */
    method FindLive(t: Tuple) returns (r: ZdtunConn?)
      requires Sound()
      modifies `table, `allFds, `writeFds, `numOpen, `numTcp, `numUdp, `numIcmp, table
      ensures Sound() && Entries() == WithoutDead(old(Entries()), t) && Within(table, old(table))
      ensures r != null <==> LiveIn(old(Entries()), t)
      ensures r == null <==> FindEntry(Entries(), t) == None
      ensures r != null ==> r in table && r.key == t && r.tuple == t && !Dead(r.status)
    {
      hide *;
      SweptCases(Entries(), t);
      WithinSelf(table);
      r := null;
      var f := Find(t);
      if f.Some? {
        FoundEntry(Entries(), t);
        EntryKey(table[f.value], allFds, writeFds);
        r := LiveOrDestroyed(f.value);
      }
    }

    /** A closed connection is destroyed instead of being handed out. */
    method LiveOrDestroyed(i: nat) returns (r: ZdtunConn?)
      requires Sound() && i < |table| && table[i].tuple == table[i].key && FindEntry(Entries(), table[i].key) == Some(i)
      modifies `table, `allFds, `writeFds, `numOpen, `numTcp, `numUdp, `numIcmp, table
      ensures Sound() && Within(table, old(table))
      ensures var e := old(Entries()[i]);
              if Dead(e.conn.status) then
                r == null && Entries() == Without(old(Entries()), i) && FindEntry(Entries(), e.key) == None
              else
                && r != null && r in table && r.key == e.key && r.tuple == e.key && !Dead(r.status)
                && Entries() == old(Entries())
    {
      SoundUnique();
      hide *;
      var c := table[i];
      EntryKey(c, allFds, writeFds);
      r := null;
      WithinSelf(table);
      if Dead(c.status) {
        FoundOnce(Entries(), c.key, i);
        WithinWithout(table, table, i);
        DestroyConn(i);
      } else {
        r := c;
      }
    }

    lemma SoundUnique()
      requires Sound()
      ensures UniqueTuples(Entries())
    {
    }

    method Create(t: Tuple, allow: bool, env: Env, mode: ProxyMode, now: int) returns (r: ZdtunConn?)
      requires Sound() && FindEntry(Entries(), t) == None && FromPacket(t)
      modifies `table, `allFds, `writeFds, `numOpen, `numTcp, `numUdp, `numIcmp, table
      ensures Sound() && Entries() == Created(old(Entries()), t, true, allow, env, mode, now)
      ensures r == null <==> FindEntry(Entries(), t) == None
      ensures r != null ==> r in table && r.key == t && r.tuple == t && !Dead(r.status)
    {
      hide *;
      ghost var es := Entries();
      NumOpenCounts();
      CreatedCases(es, t, allow, env, mode, now);
      if numOpen >= MAX_NUM_SOCKETS {
        PurgedIn(es, now);
        StillAbsent(es, Purged(es, now), t);
        PurgeExpired(now);
      }
      ghost var es1 := Entries();
      r := null;
      if allow {
        var c := new ZdtunConn(t, env, mode, now);
        NewEntry(c, allFds, writeFds, mode, now);
        EntryKey(c, allFds, writeFds);
        Add(c);
        FoundLast(es1, c.AsEntry(allFds, writeFds));
        r := c;
      }
    }

    /** zdtun_finalize: nothing stays open. */
    method Finalize()
      requires Sound()
      modifies `table, `allFds, `writeFds, `numOpen, `numTcp, `numUdp, `numIcmp, table
      ensures Sound() && table == [] && numOpen == 0 && allFds == {} && writeFds == {}
      ensures numTcp == 0 && numUdp == 0 && numIcmp == 0
    {
      hide *;
      ghost var all := table;
      WithinSelf(all);
      while table != []
        invariant Sound() && Within(table, all)
        decreases |table|
      {
        WithinWithout(table, all, 0);
        WithoutShorter(table);
        DestroyConn(0);
      }
      EmptyIsClosed();
    }

    lemma EmptyIsClosed()
      requires Sound() && table == []
      ensures numOpen == 0 && allFds == {} && writeFds == {} && numTcp == 0 && numUdp == 0 && numIcmp == 0
    {
    }
  }

  /** A refused packet closes the connection without a RST. */
  lemma SendCases(env: Env, c: Conn, p: Packet)
    ensures TcpProxy.SendToClient(env, c, p) ==
            if env.accepts(c.sends) then Outcome(c.(sends := c.sends + 1, log := c.log + [p]), 0)
            else Outcome(CloseConn(env, c.(sends := c.sends + 1, finAckSent := c.isTcp || c.finAckSent), ClientError), -1)
  {
  }

  function SendRst(env: Env, c: Conn): Conn {
    if c.isTcp && !c.finAckSent then TcpProxy.SendToClient(env, c, Reply(c, RstAck, [])).c else c
  }

  /** The bytes after the 4-byte header of a granting reply are handled like a reply of their own. */
  lemma GrantedCases(env: Env, c: Conn, d: bytes, fail: Option<SockError>)
    requires |d| >= 4 && d[0] == 5 && d[1] == 0 && (d[3] == 1 || d[3] == 4)
    ensures var c1 := c.(skip := if d[3] == 1 then 6 else 18, s5 := SkipBnd);
            ConnectReply(env, c, d) == if |d| > 4 then Socks5Reply(env, c1, d[4..], fail) else Outcome(c1, 0)
  {
    hide SkipBound;
  }

  /** What a close does once the socket is gone. */
  lemma CloseCases(env: Env, c: Conn, st: Status)
    ensures CloseConn(env, c, st) ==
            if Dead(c.status) then c
            else SendRst(env, c.(open := false, inRead := false, inWrite := false))
                   .(queue := [], status := if Dead(st) then st else Closed)
  {
    hide TcpProxy.SendToClient;
  }

  lemma WindowFromInFlight(c: Conn, seg: Segment, inFlight: u32)
    requires inFlight == Wrap32(c.zdtunSeq - seg.ackNo)
    ensures Wrap32(Shl(seg.win, c.scale) - inFlight) == WindowAfterAck(c, seg)
  {
    hide Shl;
    WrapAdds(c.zdtunSeq - seg.ackNo, Shl(seg.win, c.scale));
  }

  function TakeData(env: Env, c: Conn, seg: Segment): Outcome {
    var Outcome(c1, rv) := TakeAck(env, c, seg);
    if rv != 0 then Outcome(c1, rv) else TakePayload(env, c1, seg)
  }

  lemma SegmentCases(env: Env, c: Conn, seg: Segment)
    ensures TakeSegment(env, c, seg) ==
            if !InSequence(c, seg) then Outcome(c, 0)
            else if c.Socks5InProgress() then Outcome(CloseConn(env, c, Socks5Error), -1)
            else if seg.rst then Outcome(CloseConn(env, c, Closed), 0)
            else if seg.fin && seg.ackFlag then ClientFin(env, c, seg)
            else TakeData(env, c, seg)
  {
  }

  // The handlers of TcpProxy, cut at the helpers above.

  function AfterConnectSpec(env: Env, c: Conn, seg: Segment, done: bool, hello: Option<SockError>): Outcome {
    var c1 := c.(clientSeq := Wrap32(seg.seqNo + 1), zdtunSeq := ISS, isn := seg.seqNo);
    if done then SocketSyn(env, c1, hello) else Outcome(c1.(status := Connecting, inWrite := true), 0)
  }

  function SetUpSpec(env: Env, c: Conn, seg: Segment, connect: ConnectResult, hello: Option<SockError>): Outcome {
    var o := TcpOptions.Parse(seg.options, TcpOptions.Parsed(env.defaultMss, 0));
    var c1 := c.(window := Shl(seg.win, o.scale), scale := o.scale, mss := o.mss);
    if connect.Failed? then Outcome(CloseOnError(env, c1, connect.e).c, 0) else AfterConnectSpec(env, c1, seg, connect.Done?, hello)
  }

  lemma OpenCases(env: Env, c: Conn, seg: Segment, r: SynResult)
    ensures OpenForSyn(env, c, seg, r) ==
            if r.socketOk then SetUpSpec(env, c.(open := true, inRead := true), seg, r.connect, r.hello)
            else Outcome(c.(status := SocketError), -1)
  {
    hide SocketSyn, CloseOnError, Shl, TcpOptions.Parse;
  }

  lemma DrainOfNothing(r: nat -> SendResult, i: nat)
    ensures Drain([], r, i) == Drained([], [], None)
  {
  }

  function FinSent(env: Env, c: Conn): Conn {
    if c.finAckSent then c
    else
      var Outcome(c1, rv) := SendToClient(env, c, Reply(c, FinAck, []));
      c1.(zdtunSeq := if rv == 0 then Wrap32(c1.zdtunSeq + 1) else c1.zdtunSeq, finAckSent := true)
  }

  lemma EofCases(env: Env, c: Conn)
    ensures var c1 := FinSent(env, c).(open := false, inRead := false, inWrite := false);
            ServerEof(env, c) == if c.clientClosed then CloseConn(env, c1, Closed) else c1
  {
    hide SendToClient, CloseConn;
  }

  lemma FinKeepsClosed(env: Env, c: Conn)
    ensures FinSent(env, c).clientClosed == c.clientClosed
  {
  }

  function HandshakeBytesSpec(env: Env, c: Conn, d: bytes, fail: Option<SockError>): Outcome {
    var Outcome(c1, rv) := Socks5Reply(env, c.(fromServer := c.fromServer + d, handshake := c.handshake + |d|), d, fail);
    if rv == 0 && c1.s5 == Established then SendSynAck(env, c1) else Outcome(c1, rv)
  }

  function RelayBytesSpec(env: Env, c: Conn, d: bytes, last: bool): Outcome {
    Relay(env, c.(fromServer := c.fromServer + d), d, last)
  }

  function Relayed(c: Conn, n: nat): Conn
    requires n <= c.window
  {
    c.(zdtunSeq := Wrap32(c.zdtunSeq + n), window := c.window - n, inRead := c.inRead && c.window != n)
  }

  lemma RelayCases(env: Env, c: Conn, d: bytes, last: bool)
    ensures c.window < |d| ==> Relay(env, c, d, last) == Outcome(CloseConn(env, c, Error), -1)
  {
  }

  lemma SentOpen(env: Env, c: Conn, p: Packet)
    ensures var o := SendToClient(env, c, p);
            o.rv == 0 ==> o.c.open == c.open && o.c.window == c.window
  {
  }

  lemma RelayFits(env: Env, c: Conn, d: bytes, last: bool)
    requires |d| <= c.window
    ensures var o := SendToClient(env, c, Reply(c, if last then PushAck else Ack, d));
            && (o.rv == 0 ==> o.c.window == c.window && Relay(env, c, d, last) == Outcome(Relayed(o.c, |d|), 0))
            && (o.rv != 0 ==> Relay(env, c, d, last) == Outcome(o.c, -1))
  {
    hide SendToClient;
    SentOpen(env, c, Reply(c, if last then PushAck else Ack, d));
  }

  lemma ReadableCases(env: Env, c: Conn, r: RecvResult, fail: Option<SockError>)
    ensures Readable(env, c, r, fail) ==
            match r
            case RecvFailed(e) => CloseOnError(env, c, e)
            case Eof => Outcome(ServerEof(env, c), 0)
            case Data(d, last) => if c.Socks5InProgress() then HandshakeBytesSpec(env, c, d, fail) else RelayBytesSpec(env, c, d, last)
  {
    hide Socks5Reply, SendSynAck, Relay, ServerEof, CloseOnError;
  }

  lemma SameFds(a: set<nat>, b: set<nat>, m: set<nat>, sock: Option<nat>)
    requires SameBut(a, b, m) && (sock.Some? ==> sock.value !in m)
    ensures Has(a, sock) == Has(b, sock)
  {
    if sock.Some? {
      assert sock.value in a - m <==> sock.value in b - m;
    }
  }

  // ------------------------------------------------------------------ the table in memory and as values

  function EntriesOf(t: seq<ZdtunConn>, allFds: set<nat>, writeFds: set<nat>): (r: seq<Entry>)
    reads t
    ensures |r| == |t| && forall i :: 0 <= i < |t| ==> r[i] == t[i].AsEntry(allFds, writeFds)
  {
    if t == [] then [] else EntriesOf(t[..|t| - 1], allFds, writeFds) + [t[|t| - 1].AsEntry(allFds, writeFds)]
  }

  lemma {:induction false} CountProtoWithout(t: seq<ZdtunConn>, i: nat, p: Proto)
    requires i < |t|
    ensures CountProto(Without(t, i), p) == CountProto(t, p) - if t[i].key.Transport() == p then 1 else 0
  {
    var w := Without(t, i);
    if i == |t| - 1 {
      assert w == t[..|t| - 1];
    } else {
      assert w[..|w| - 1] == Without(t[..|t| - 1], i);
      CountProtoWithout(t[..|t| - 1], i, p);
    }
  }

  lemma WithoutAre(t: seq<ZdtunConn>, i: nat, socks: Socks)
    requires i < |t| == |socks|
    ensures Without(t, i) == t[..i] + t[i + 1..] && Without(socks, i) == socks[..i] + socks[i + 1..]
  {
  }

  lemma RemoveConn(t: seq<ZdtunConn>, i: nat, allFds: set<nat>, writeFds: set<nat>)
    requires i < |t| && NoDup(t)
    ensures NoDup(Without(t, i))
    ensures SocksOf(Without(t, i)) == Without(SocksOf(t), i)
    ensures EntriesOf(Without(t, i), allFds, writeFds) == Without(EntriesOf(t, allFds, writeFds), i)
    ensures forall p :: CountProto(Without(t, i), p) == CountProto(t, p) - if t[i].key.Transport() == p then 1 else 0
  {
    hide SocksOf, EntriesOf, CountProto, ZdtunConn.View;
    forall p
      ensures CountProto(Without(t, i), p) == CountProto(t, p) - if t[i].key.Transport() == p then 1 else 0
    {
      CountProtoWithout(t, i, p);
    }
  }

  lemma ByTimeStart(es: seq<Entry>, allFds: set<nat>, writeFds: set<nat>)
    ensures EntriesOf([], allFds, writeFds) == ByTime(es[..0])
  {
  }

  lemma InsertEntries(s: seq<ZdtunConn>, at: nat, c: ZdtunConn, allFds: set<nat>, writeFds: set<nat>)
    requires at <= |s|
    ensures EntriesOf(Insert(s, at, c), allFds, writeFds) == Insert(EntriesOf(s, allFds, writeFds), at, c.AsEntry(allFds, writeFds))
    ensures multiset(Insert(s, at, c)) == multiset(s + [c])
  {
    hide EntriesOf, ZdtunConn.View;
    assert s == s[..at] + s[at..];
  }

  lemma SameElements(s: seq<ZdtunConn>, t: seq<ZdtunConn>)
    requires NoDup(s) && multiset(s) == multiset(t)
    ensures NoDup(t) && |s| == |t|
    ensures forall x :: x in s <==> x in t
  {
    forall x
      ensures x in s <==> x in t
    {
      assert x in s <==> x in multiset(s);
      assert x in t <==> x in multiset(t);
    }
    assert |multiset(s)| == |s| && |multiset(t)| == |t|;
    forall i, j | 0 <= i < j < |t|
      ensures t[i] != t[j]
    {
      OnceIn(s, t[i]);
      NotTwice(t, i, j);
    }
  }

  lemma NotTwice(t: seq<ZdtunConn>, i: nat, j: nat)
    requires i < j < |t| && multiset(t)[t[i]] <= 1
    ensures t[i] != t[j]
  {
    assert t == t[..j] + [t[j]] + t[j + 1..];
    assert t[i] in t[..j];
  }

  lemma {:induction false} OnceIn(s: seq<ZdtunConn>, x: ZdtunConn)
    requires NoDup(s)
    ensures multiset(s)[x] <= 1
  {
    if s != [] {
      var last := s[|s| - 1];
      assert s == s[..|s| - 1] + [last];
      OnceIn(s[..|s| - 1], x);
      if last == x {
        assert x !in s[..|s| - 1];
      }
    }
  }

  lemma {:induction false} ProtoIsCardinality(t: seq<ZdtunConn>, p: Proto)
    requires NoDup(t)
    ensures CountProto(t, p) == |ProtoSet(t, p)|
  {
    if t == [] {
      assert ProtoSet(t, p) == {};
    } else {
      var s, last := t[..|t| - 1], t[|t| - 1];
      ProtoIsCardinality(s, p);
      ProtoAppend(s, last, p);
      assert t == s + [last];
      assert last !in s;
    }
  }

  function ProtoSet(t: seq<ZdtunConn>, p: Proto): set<ZdtunConn> {
    set x | x in t && x.key.Transport() == p
  }

  lemma ProtoAppend(s: seq<ZdtunConn>, last: ZdtunConn, p: Proto)
    ensures ProtoSet(s + [last], p) == ProtoSet(s, p) + if last.key.Transport() == p then {last} else {}
  {
  }

  lemma SortedSocks(s: seq<ZdtunConn>, t: seq<ZdtunConn>)
    requires NoDup(t) && (forall x :: x in s <==> x in t) && Distinct(SocksOf(s))
    ensures Distinct(SocksOf(t))
    ensures forall i :: 0 <= i < |s| ==> SocksOf(s)[i] in SocksOf(t)
    ensures forall i :: 0 <= i < |t| ==> SocksOf(t)[i] in SocksOf(s)
  {
    hide SocksOf;
    forall i | 0 <= i < |s|
      ensures SocksOf(s)[i] in SocksOf(t)
    {
      assert s[i] in t;
      var j :| 0 <= j < |t| && t[j] == s[i];
      assert SocksOf(t)[j] == s[i].sock;
    }
    forall i | 0 <= i < |t|
      ensures SocksOf(t)[i] in SocksOf(s)
    {
      assert t[i] in s;
      var j :| 0 <= j < |s| && s[j] == t[i];
      assert SocksOf(s)[j] == t[i].sock;
    }
    forall i, j | 0 <= i < j < |t| && SocksOf(t)[i].Some?
      ensures SocksOf(t)[i] != SocksOf(t)[j]
    {
      assert t[i] in s && t[j] in s;
      var a :| 0 <= a < |s| && s[a] == t[i];
      var b :| 0 <= b < |s| && s[b] == t[j];
      assert SocksOf(s)[a] == t[i].sock && SocksOf(s)[b] == t[j].sock && a != b;
    }
  }

  lemma SortedEntries(s: seq<ZdtunConn>, t: seq<ZdtunConn>, allFds: set<nat>, writeFds: set<nat>)
    requires NoDup(t) && forall x :: x in s <==> x in t
    requires UniqueTuples(EntriesOf(s, allFds, writeFds)) && AllFit(EntriesOf(s, allFds, writeFds))
    ensures UniqueTuples(EntriesOf(t, allFds, writeFds)) && AllFit(EntriesOf(t, allFds, writeFds))
  {
    hide EntriesOf, ZdtunConn.View, Fits;
    var es, et := EntriesOf(s, allFds, writeFds), EntriesOf(t, allFds, writeFds);
    forall i | 0 <= i < |t|
      ensures Fits(et[i])
    {
      assert t[i] in s;
      var a :| 0 <= a < |s| && s[a] == t[i];
      assert es[a] == et[i];
    }
    forall i, j | 0 <= i < j < |t| && et[i].tuple == et[i].key && et[j].tuple == et[j].key
      ensures et[i].key != et[j].key
    {
      assert t[i] in s && t[j] in s;
      var a :| 0 <= a < |s| && s[a] == t[i];
      var b :| 0 <= b < |s| && s[b] == t[j];
      assert es[a] == et[i] && es[b] == et[j] && a != b;
    }
  }

  lemma {:induction false} OpenCountIs(t: seq<ZdtunConn>, allFds: set<nat>, writeFds: set<nat>)
    ensures OpenCount(EntriesOf(t, allFds, writeFds)) == CountOpen(SocksOf(t))
  {
    if t != [] {
      OpenCountIs(t[..|t| - 1], allFds, writeFds);
      assert EntriesOf(t, allFds, writeFds)[..|t| - 1] == EntriesOf(t[..|t| - 1], allFds, writeFds);
      assert SocksOf(t)[..|t| - 1] == SocksOf(t[..|t| - 1]);
    }
  }

  lemma NewEntry(c: ZdtunConn, allFds: set<nat>, writeFds: set<nat>, mode: ProxyMode, now: int)
    requires c.sock == None && c.View({}, {}) == NewFor(c.key, mode) && c.tuple == c.key && c.tstamp == now
    ensures c.AsEntry(allFds, writeFds) == Entry(c.key, c.key, now, c.env, NewFor(c.key, mode))
    ensures c.status == New && !Dead(c.status)
  {
  }

  lemma CountProtoAppend(t: seq<ZdtunConn>, x: ZdtunConn, p: Proto)
    ensures CountProto(t + [x], p) == CountProto(t, p) + if x.key.Transport() == p then 1 else 0
  {
    assert (t + [x])[..|t|] == t;
  }

  lemma AppendConn(t: seq<ZdtunConn>, c: ZdtunConn, allFds: set<nat>, writeFds: set<nat>)
    requires NoDup(t) && c !in t
    ensures NoDup(t + [c]) && SocksOf(t + [c]) == SocksOf(t) + [c.sock]
    ensures EntriesOf(t + [c], allFds, writeFds) == EntriesOf(t, allFds, writeFds) + [c.AsEntry(allFds, writeFds)]
    ensures forall p :: CountProto(t + [c], p) == CountProto(t, p) + if c.key.Transport() == p then 1 else 0
  {
    assert (t + [c])[..|t|] == t;
    hide ZdtunConn.View;
  }
}
