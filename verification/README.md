# Verified model of the capture engine

A Dafny model of the parts of this Android traffic-capture application that keep state, with proofs of what they keep.
`dafny verify dfyconfig.toml` checks the whole project.

## What is modelled

| file | models |
|---|---|
| `TcpProxy.dfy` | one connection of the user-space TCP proxy (zdtun.c, socks5.c) as a step machine: client segment, socket readable, socket writable, close. `recv`, `send`, `connect`, `select` and the client callback answer through the arguments, so every property holds for all their answers |
| `TcpReadiness.dfy`, `TcpUpstream.dfy`, `TcpDownstream.dfy`, `TcpFlow.dfy`, `TcpSocks5.dfy` | what every run of that machine keeps: queue and fd sets, the byte stream to the server, the byte stream to the client, the window, the SOCKS5 handshake |
| `TcpAnswers.dfy` | what each event is answered by: the packet, its numbers and flags, and the whole state afterwards |
| `ConnTable.dfy` | the connection table as values: what serving, forwarding, purging and looking up make of its entries |
| `Tunnel.dfy`, `SocketAccounting.dfy` | zdtun.c as it is written: objects updated in place, loops over the queue and the table, mutual recursion of close and send. Each handler is proved to do to its connection what the step machine says and to nothing else, and to keep the accounting of sockets, fd sets and counters |
| `TxQueue.dfy` | the send queue as items linked in memory |
| `Tuples.dfy`, `TcpOptions.dfy`, `Packet.dfy`, `IpFormats.dfy`, `TcpWire.dfy`, `Checksum.dfy` | bytes: 5-tuples, TCP options, packets built in the reply buffer, the parser and the formats it reads, what either side reads in a segment, the Internet checksum |
| `Datagrams.dfy`, `DnsQueries.dfy` | what every run of a UDP or ICMP connection carries in both directions; what one to port 53 keeps |
| `RecordLifetime.dfy` | the records vpnrelay.c keeps per connection, from the opening callback to their release |
| `ConnectionsRegister.dfy` | the ring of recent connections with its counters and listener events |
| `HttpReassembly.dfy`, `HttpChunked.dfy` | the splitter of payload chunks into HTTP messages, chunked transfer included |
| `ReversedLines.dfy` | the backward line reader |
| `IpLru.dfy` | the IP-to-host cache |
| `Counterexamples.dfy` | concrete runs behind the exact conditions below |
| `Words.dfy` | 32-bit arithmetic and concatenation |

Unsigned 32-bit registers are integers reduced mod 2^32 where the code lets them wrap; 16-bit counters likewise.
Connections and histories are unbounded.

## Where the code and what it promises differ

Each of these is proved with its exact condition, and `Counterexamples.dfy` holds a concrete run, table or packet for each.

* A retransmission that starts at the last byte already given to the server passes the keep-alive test and, if it
  carries data, is queued again (`TcpUpstream.KeepAliveDataIff`).
* A FIN that comes while bytes are still queued is answered by an ACK that is short by those bytes (`TcpAnswers.FinAnswered`).
* Data that arrives after the server closed its end is acknowledged and dropped (`TcpUpstream.AcknowledgedIsGiven`).
* An ACK that offers less than was sent, because it is stale or its window shrank, makes window_size wrap around: the
  client is then sent more than it has room for (`TcpFlow.NothingPastTheEdge`).
* A socket reported readable while the connection is not yet known to be up is read at once, so its bytes are sent
  before the SYN+ACK; a SOCKS5 reply read whole there has the SYN+ACK sent before the connection is up
  (`TcpSocks5.EarlyReadMisnumbers`), and a greeting has the proxy get the request before it is greeted
  (`TcpSocks5.EarlyReadBreaksHandshake`).
* A window shrunk to exactly the bytes in flight leaves the socket readable with 0 bytes to ask for; the 0 that recv()
  returns is taken for the end of the stream (`TcpFlow.RunFlows`).
* The window of the client's SYN is scaled (`TcpFlow.SynWindowScaled`).
* The MSS of the SYN is taken as it is, so that of a client announcing more than the reply buffer holds behind the headers
  lets recv() be asked for more than fits there (`TcpWire.RepliesFit`).
* A SOCKS5 connect reply whose first piece is shorter than 4 bytes ends the connection
  (`TcpSocks5.FirstPieceNeedsHeader`), and so does one whose last piece brings the first server bytes too
  (`TcpSocks5.ReplyInAnySplit`); credentials longer than 255 bytes are sent with a truncated count
  (`TcpSocks5.CredentialsArrive`).
* DNS answers are told from queries by the bit that says whether the server offers recursion, and the counter of pending
  queries holds 255 (`DnsQueries.RecursionTested`, `DnsQueries.ClosedWhenAnswered`).
* A UDP checksum over IPv6 that comes out as 0 is sent as 0 (`Packet.UdpChecksumZero`).
* A forced purge frees a socket only if one of the connections it removes holds one (`ConnTable.ForcedPurge`).
* An ICMP connection that a client opens with an echo reply is no longer found under its tuple, and the next echo reply
  opens a second one with the same tuple (`ConnTable.FoundAgain`, `ConnTable.ForwardKeepsDistinct`); what is sent to its client
  is accepted by the parser, but not under its tuple (`Packet.IcmpRoundTrip`).
* A record whose connection failed before it had a socket is never released once it was delivered
  (`RecordLifetime.ReleasedAtTheEnd`).
* Resetting the register does not clear its counters (`ConnectionsRegister.ConnectionsRegister.Reset`).
* An update without statistics takes the bytes of its connection out of the totals of its app
  (`ConnectionsRegister.ConnectionsRegister.ConnectionsUpdates`).
* A header block cut just before its blank line is not seen to end (`HttpReassembly.HeadersHeld`); the line end that closes
  a chunked body is taken for a part of it, with all that follows in the same chunk (`HttpChunked.ExactWithoutTail`).
* A message announcing an empty body swallows what follows it in the same chunk (`HttpReassembly.CoalescedMessages`).

## Model

| member | source | states |
|---|---|---|
| `TcpUpstream.RunIsUp` | app/src/main/jni/zdtun.c:1116-1146 | for every run on segments of one client stream, reordered and duplicated at will, before the first FIN: the bytes given to send() and then those queued are a prefix of that stream; client_seq + tx_queue_size is the number after it mod 2^32; every packet built while the server socket is open acknowledges exactly the bytes given to it |
| `TcpUpstream.StepUp` | app/src/main/jni/zdtun.c:1266-1375 | any single event keeps that, whatever the kernel, the proxy and the client callback answer |
| `TcpUpstream.InSequenceIsNext` | app/src/main/jni/zdtun.c:1271-1278 | a segment within 2^31 of the expected offset passes the sequence test exactly when it starts where the taken bytes end, unless it looks like a keep-alive |
| `TcpUpstream.ExpectedIsEnd` | app/src/main/jni/zdtun.c:1275-1278 | client_seq + tx_queue_size is the sequence number after the last byte taken |
| `TcpUpstream.FlushKeepsEnd` | app/src/main/jni/zdtun.c:1886-1932 | a flush gives send() the front of the queue, keeps the bytes taken and keeps client_seq + tx_queue_size |
| `TcpUpstream.KeepAliveDataIff` | app/src/main/jni/zdtun.c:1271-1278 | a data segment keeps the taken bytes a prefix of every stream it can belong to if and only if it does not look like a keep-alive probe; a retransmission from the last byte on is queued again |
| `TcpUpstream.AcknowledgedIsGiven` | app/src/main/jni/zdtun.c:1357-1371 | data in sequence is acknowledged as given if and only if the server socket is open; afterwards it is acknowledged and dropped, whatever is still queued |
| `TcpDownstream.RunIsDown` | app/src/main/jni/zdtun.c:1733-1813 | for every run: each packet is numbered from 0x77EB77EB after all before it, SYN and FIN taking one number each, and is accepted only while the status is neither closed nor an error; at most one FIN, and no byte, FIN or RST after it; if nothing was read before the connection was up, one SYN+ACK comes before every byte and the bytes received are those recv() returned after the SOCKS5 handshake |
| `TcpDownstream.StepDown` | app/src/main/jni/zdtun.c:474-498 | any single event keeps that |
| `TcpDownstream.ByteNumber` | app/src/main/jni/zdtun.c:1792-1795 | the k-th relayed byte, counting from 0, is received at 0x77EB77EB + 1 + k mod 2^32 and is the k-th server byte after the handshake |
| `TcpFlow.RunFlows` | app/src/main/jni/zdtun.c:1334-1354 | for every run, and all through it: an open socket is in all_fds exactly while window_size > 0, and its MSS is above 0, if and only if a SYN that opens the connection offers a window and an MSS above 0 and no ACK taken puts the right edge just where the bytes sent end |
| `TcpFlow.AckedBytesNumbered` | app/src/main/jni/zdtun.c:1334-1346 | an ACK acknowledges a bytes if and only if it has the number of byte a and fewer than 2^32 more were sent since |
| `TcpFlow.WindowFollowsAck` | app/src/main/jni/zdtun.c:1334-1354 | every accepted ACK, stale and shrinking ones too: the right edge is where the client put it, exactly and not only mod 2^32, if and only if that reaches as far as the bytes sent; otherwise it is 2^32 too far; the socket agrees with the window afterwards if and only if the edge is not just where the bytes sent end, or the socket was left alone |
| `TcpFlow.StepKeepsEdge` | app/src/main/jni/zdtun.c:1777-1807 | any event keeps the register in agreement with the edge the client last offered and the bytes sent within it, unless it is an ACK that offers less than was sent; then the register is 2^32 past that edge |
| `TcpFlow.NothingPastTheEdge` | app/src/main/jni/zdtun.c:1777-1807 | for every run, and all through it: no server byte is sent past the edge that the SYN or the last ACK taken offered, if and only if no ACK taken offers less than was sent before it |
| `TcpFlow.RightEdgeKept` | app/src/main/jni/zdtun.c:1334-1354 | for a client whose right edge never moves left (section 3.8.6 of RFC 9293), its handshake ACK coming before any server byte, every run stays within the edge, an open socket is in all_fds exactly while window_size > 0, and recv() is never asked for 0 bytes |
| `TcpFlow.SynWindowScaled` | app/src/main/jni/zdtun.c:1241 | the first window is the one the SYN offers if and only if that is 0 or no scaling is asked for: the code shifts it, section 2.2 of RFC 7323 does not |
| `TcpFlow.PayloadsWithinMss` | app/src/main/jni/zdtun.c:1736-1737 | for every run no payload is longer than the MSS of the SYN, and recv() is never asked for more |
| `TcpFlow.PayloadsFit` | app/src/main/jni/zdtun.c:1736-1737 | whatever a client does after a SYN, its payloads fit in n bytes if and only if the MSS of that SYN does: no other bound applies |
| `TcpAnswers.FinAnswered` | app/src/main/jni/zdtun.c:1293-1318 | a FIN in sequence on a connection that is up: one ACK whose number is client_seq, plus the payload, plus 1, which is the one after the FIN if and only if nothing is queued; the connection is over if and only if the server had closed, and nothing else of it changes |
| `TcpAnswers.OverAfterBoth` | app/src/main/jni/zdtun.c:1293-1318 | once client and server have closed, in either order, the FIN of the one was acknowledged and that of the other passed on, once each, and the connection is closed |
| `TcpAnswers.WriteAcknowledged` | app/src/main/jni/zdtun.c:1919-1930 | a write without error: if send() accepts any byte the log grows by one ACK, of every byte given so far, otherwise by nothing |
| `TcpAnswers.WriteGoesOn` | app/src/main/jni/zdtun.c:1889-1917 | items are sent whole and in order up to the first for which send() has no room, takes only a part or fails; what is left, and the error, are told from that answer |
| `TcpAnswers.WriteFails` | app/src/main/jni/zdtun.c:1900-1902 | a write that fails ends the connection with the status of the error and a RST |
| `TcpAnswers.GivenIsAcknowledged` | app/src/main/jni/zdtun.c:1919-1930 | for every run on segments of one client stream before the first FIN: the last packet the client had acknowledges exactly the bytes given to send(), while the server socket is open |
| `TcpAnswers.RunTells` | app/src/main/jni/zdtun.c:601-632 | for every run, FINs included: the last packet of a live connection acknowledges up to client_seq |
| `TcpAnswers.SegmentTaken` | app/src/main/jni/zdtun.c:1320-1372 | any other segment in sequence: its ACK sets the window, its bytes are queued with their PSH flag, nothing is sent |
| `TcpAnswers.ProbeAnswered` | app/src/main/jni/zdtun.c:1320-1333 | a keep-alive probe is answered by one ACK of client_seq while the server socket is open, and changes nothing else |
| `TcpAnswers.ProbeWithData` | app/src/main/jni/zdtun.c:1320-1372 | bytes in the place of a probe are queued as if they were the next |
| `TcpAnswers.DroppedWhenClosed` | app/src/main/jni/zdtun.c:1358-1367 | bytes that come after the server socket is gone are acknowledged and not queued |
| `TcpAnswers.SegmentIgnored` | app/src/main/jni/zdtun.c:1166-1168 | segments are ignored while connecting, out of sequence, and on a connection that is over |
| `TcpAnswers.SegmentRefused` | app/src/main/jni/zdtun.c:1161-1165 | URG, or a segment in sequence during the SOCKS5 handshake, ends the connection with a RST |
| `TcpAnswers.RstCloses` | app/src/main/jni/zdtun.c:1288-1292 | a RST in sequence closes it |
| `TcpAnswers.SynAnswered` | app/src/main/jni/zdtun.c:1169-1264 | a SYN: no socket, an error of connect(), a connection under way, and one that stands at once, each with the whole state and the packet sent, numbered 0x77EB77EB and acknowledging the SYN |
| `TcpAnswers.ConnectEnds` | app/src/main/jni/zdtun.c:1857-1882 | the end of connect(): SYN+ACK or greeting, or closed with the status of its error |
| `TcpAnswers.BytesRelayed` | app/src/main/jni/zdtun.c:1777-1813 | server bytes that fit the window go out in one packet with the next numbers, pushed if nothing is left in the socket buffer; the window shrinks by them |
| `TcpAnswers.EndRelayed` | app/src/main/jni/zdtun.c:1744-1761 | the end of the server stream: one FIN, also after the client closed, which then ends the connection |
| `TcpAnswers.ReadFails` | app/src/main/jni/zdtun.c:291-334 | a read that fails ends the connection with the status of the error and a RST |
| `TcpAnswers.ProxyRefuses` | app/src/main/jni/socks5.c:144-248 | which replies of a SOCKS5 proxy end the connection, with which status, and that a RST goes out; all others leave it open |
| `TcpAnswers.ClosedFromOutside` | app/src/main/jni/zdtun.c:640-683 | a close: a RST goes out unless a FIN has, the socket and the queue are given up, and a second close changes nothing |
| `TcpAnswers.RefusalEnds` | app/src/main/jni/zdtun.c:474-498 | any event while the client refuses packets hands it one at most, which ends the connection with nothing held and no RST to come |
| `TcpAnswers.ReadCode` | app/src/main/jni/zdtun.c:1733-1813 | the code a read returns |
| `TcpAnswers.WriteCode` | app/src/main/jni/zdtun.c:1857-1932 | the code a write, or the end of connect(), returns |
| `TcpReadiness.RunIsReady` | app/src/main/jni/zdtun.c:744-766 | for every run: a live connection with an open socket is in write_fds if and only if it is CONNECTING or has bytes queued; CONNECTING implies an empty queue; only the head item is partly sent; tx_queue_size is the number of unsent bytes |
| `TcpReadiness.WritableWithEmptyQueue` | app/src/main/jni/zdtun.c:1955-1960 | so the writable branch that completes a connection runs only while CONNECTING |
| `TcpReadiness.DrainTakesPrefix` | app/src/main/jni/zdtun.c:1889-1917 | whatever send() answers, the bytes it accepts and those left are the queue, in order |
| `TcpSocks5.HandshakeBeforeRelay` | app/src/main/jni/zdtun.c:1763-1775 | for every run through a SOCKS5 proxy not read early: requests sent and bytes read follow the grammar of RFC 1928 and RFC 1929; the one SYN+ACK has been sent if and only if the handshake is done; no handshake byte reaches the client |
| `TcpSocks5.EarlyReadMisnumbers` | app/src/main/jni/zdtun.c:1936-1962 | reading keeps order and numbering of what the client receives if and only if the connection is known to be up, the client refuses its next packet, or the bytes belong to a SOCKS5 handshake and are neither the end of a granting reply nor the whole of one: any other byte read while connecting is sent with no SYN+ACK before it, and a reply completed has the SYN+ACK sent too early |
| `TcpSocks5.EarlyReadBreaksHandshake` | app/src/main/jni/zdtun.c:1763-1775 | reading keeps the handshake in order if and only if the connection is known to be up or is closed by it: a greeting read before is answered at once, and the proxy is greeted only after |
| `TcpSocks5.ReplyInAnySplit` | app/src/main/jni/socks5.c:165-245 | a granting connect reply whose first piece holds 4 bytes may come in any pieces: the connection survives it if and only if no piece reaches past its end, and ESTABLISHED and the SYN+ACK come exactly when all 10 or 22 bytes are read; a piece that brings the first server bytes too has it closed with SOCKS5_ERROR |
| `TcpSocks5.FirstPieceNeedsHeader` | app/src/main/jni/socks5.c:165-171 | a granting reply in several pieces gets past the first one if and only if that holds 4 bytes |
| `TcpSocks5.StepShakes` | app/src/main/jni/socks5.c:144-248 | any single event keeps requests, bytes read and handshake state in agreement |
| `TcpSocks5.DestinationArrives` | app/src/main/jni/socks5.c:113-142 | a server reading the request as section 4 of RFC 1928 says gets the destination if and only if its address has the length of its IP version |
| `TcpSocks5.CredentialsArrive` | app/src/main/jni/socks5.c:81-109 | a server reading the request as section 2 of RFC 1929 says gets the configured user name and password if and only if each has at most 255 bytes |
| `TcpOptions.ParseOptions` | app/src/main/jni/zdtun.c:1205-1233 | the option scan of a SYN: every read inside the option area, later options win, a malformed one ends the scan |
| `TcpOptions.ParseOption` | app/src/main/jni/zdtun.c:1209-1233 | each well-formed option is read back as itself, whatever follows, and NOPs before it are skipped |
| `TcpOptions.ScanEnds` | app/src/main/jni/zdtun.c:1215-1227 | the end-of-list option ends the scan, and so does one with a length below 2 or past the option area |
| `TcpOptions.SynAckOptionsReparse` | app/src/main/jni/zdtun.c:720-733 | the options sent in the SYN+ACK are read back as the same MSS and scale |
| `TcpWire.SegmentRead` | app/src/main/jni/zdtun.c:1266-1375 | the fields read of a segment are those written in it: numbers, window, flags, options and payload |
| `TcpWire.SegmentLayout` | app/src/main/jni/zdtun.c:1266-1375 | numbers, window, flags, options and payload are read at the places section 3.1 of RFC 793 gives them, bit by bit |
| `TcpWire.ReplyIsBuilt` | app/src/main/jni/zdtun.c:601-632 | the bytes build_reply_tcpip writes for a connection are the packet of the step machine |
| `TcpWire.ClientReads` | app/src/main/jni/zdtun.c:601-632 | a client reads in them the numbers, flags and payload of that packet, and in a SYN+ACK its MSS and scale; the parser accepts them |
| `Packet.AdvertisedFits` | app/src/main/jni/zdtun.c:607-628 | the window field never offers more than the free space of the send buffer; unless it is full it holds back less than one unit of the scale |
| `TcpWire.RepliesFit` | app/src/main/jni/zdtun.c:1733-1737 | every packet of every run fits in the reply buffer behind its headers if and only if the MSS of the SYN does |
| `TcpWire.EchoIdInTuple` | app/src/main/jni/zdtun.c:1027-1034 | the echo ID at its place in the packet is the one in the tuple; rewriting leaves the tuple as it is if and only if the packet is an echo request or the ID is 0 |
| `Tunnel.ZdtunT.OpenSocket` | app/src/main/jni/zdtun.c:221-266 | a socket is refused at 128 open ones or above FD_SETSIZE; otherwise it is counted and put in all_fds; the accounting invariant holds again |
| `Tunnel.ZdtunT.CloseSocket` | app/src/main/jni/zdtun.c:271-286 | the socket leaves both fd sets and the count, which never runs at 0; the accounting invariant holds again |
| `Tunnel.ZdtunT.SendToClient` | app/src/main/jni/zdtun.c:474-498 | does to the connection what the pure step says, including the close when the client refuses |
| `Tunnel.ZdtunT.ConnClose` | app/src/main/jni/zdtun.c:640-683 | does to the connection what the pure close says, through the re-entry of a refused RST, and touches no other connection |
| `Tunnel.ZdtunT.CloseWithSocketError` | app/src/main/jni/zdtun.c:291-334 | maps the error to status and return code as the pure step says |
| `Tunnel.ZdtunT.SendSynAck` | app/src/main/jni/zdtun.c:715-740 | zdtun_seq grows only if the client takes the packet |
| `Tunnel.ZdtunT.HandleSocks5Reply` | app/src/main/jni/socks5.c:144-248 | all reply states, the recursion on the bytes after the 4-byte header included, equal to the pure step |
| `Tunnel.ZdtunT.Socks5Auth` | app/src/main/jni/socks5.c:81-109 | the request buffer filled byte by byte is the request of RFC 1929 for the configured credentials |
| `Tunnel.ZdtunT.TcpSocketSyn` | app/src/main/jni/zdtun.c:744-766 | connected: greeting to the proxy or SYN+ACK to the client, and out of write_fds |
| `Tunnel.ZdtunT.EnqueueTcpData` | app/src/main/jni/zdtun.c:1116-1146 | one item appended, size counted, socket in write_fds |
| `Tunnel.ZdtunT.InFlight` | app/src/main/jni/zdtun.c:1334-1346 | both branches compute zdtun_seq - ack mod 2^32 |
| `Tunnel.ZdtunT.UpdateWindow` | app/src/main/jni/zdtun.c:1334-1354 | window and read interest after an ACK |
| `Tunnel.ZdtunT.HandleSegment` | app/src/main/jni/zdtun.c:1266-1375 | the whole segment part of handle_tcp_fwd equals the pure step |
| `Tunnel.ZdtunT.OpenTcp` | app/src/main/jni/zdtun.c:1170-1264 | the new-connection part of handle_tcp_fwd equals the pure step, for every answer of socket() and connect() |
| `Tunnel.ZdtunT.HandleTcpFwd` | app/src/main/jni/zdtun.c:1155-1375 | handle_tcp_fwd equals the pure step |
| `Tunnel.ZdtunT.ForwardTcp` | app/src/main/jni/zdtun.c:1608-1639 | zdtun_forward and the close after a failure equal the pure step |
| `Tunnel.ZdtunT.SendQueue` | app/src/main/jni/zdtun.c:1889-1917 | the send loop equals the recursive drain |
| `TxQueue.LinkedQueue.Append` | app/src/main/jni/zdtun.c:1127-1134 | the walk to the last linked item appends one item to the queue, every other item as it was |
| `TxQueue.LinkedQueue.Send` | app/src/main/jni/zdtun.c:1889-1917 | the send loop on the linked items: the queue left, the bytes given and the error are those of the specified drain, for every answer of send(); items go off the front only |
| `TxQueue.LinkedQueue.Free` | app/src/main/jni/zdtun.c:666-677 | every item is freed once, in order, and none is left |
| `Tunnel.ZdtunT.HandleQueuedTcpData` | app/src/main/jni/zdtun.c:1886-1932 | equals the pure flush |
| `Tunnel.ZdtunT.HandleTcpConnectAsync` | app/src/main/jni/zdtun.c:1857-1882 | equals the pure step |
| `Tunnel.ZdtunT.HandleEof` | app/src/main/jni/zdtun.c:1744-1761 | one FIN, socket closed, connection over if the client had closed |
| `Tunnel.ZdtunT.HandleTcpReply` | app/src/main/jni/zdtun.c:1733-1813 | equals the pure step |
| `Tunnel.ZdtunT.HandleDatagram` | app/src/main/jni/zdtun.c:1684-1731 | equals the pure step: errors, ICMP messages that are too short or no echo, messages relayed, the close by the last DNS answer, and the time of the last packet |
| `Datagrams.MessageServed` | app/src/main/jni/zdtun.c:1817-1853 | what becomes of each message recv() returns on a UDP or ICMP connection: one packet with that message as payload to a client that takes it, unless it is no ICMP echo message (at least 8 bytes, type 0, 8, 128 or 129), which ends the connection; the last DNS answer closes it; the code returned |
| `Datagrams.RecvFails` | app/src/main/jni/zdtun.c:1822-1825 | a recv() that fails ends the connection with the status of the error and sends nothing |
| `Datagrams.MessageForwarded` | app/src/main/jni/zdtun.c:1556-1604 | what becomes of each packet of the client: sent as it is on the socket the first packet gets, or the end of the connection with the status of the call that failed; the code returned |
| `Datagrams.RunCarries` | app/src/main/jni/zdtun.c:1817-1853 | for every run of a UDP or ICMP connection: the messages given to send() are those of the client, and the payloads the client receives are the messages recv() returned, each once and in order; only the last can be missing, and the status then says so |
| `Datagrams.MessagesArrive` | app/src/main/jni/zdtun.c:1817-1853 | for every run on messages that fit: the i-th packet, built as bytes and parsed by the client, holds the i-th message recv() returned, for ICMP with the echo ID of the connection |
| `Datagrams.DatagramArrives` | app/src/main/jni/zdtun.c:1826-1844 | a message in the bytes built for it is read back as it was |
| `Datagrams.PacketsAreSteps` | app/src/main/jni/zdtun.c:1608-1639 | what a packet, or select(), does to a table entry is a step of the run of its protocol, with the message sent as it stands in the packet; a packet that leaves the connection alive sets its time |
| `Datagrams.ServedTime` | app/src/main/jni/zdtun.c:1715 | which messages of the server count as the last packet |
| `Tunnel.ZdtunT.CheckDnsRequest` | app/src/main/jni/zdtun.c:830-840 | a query is counted in 8 bits, as the pure step says |
| `Tunnel.ZdtunT.CheckDnsPurge` | app/src/main/jni/zdtun.c:844-870 | an answer is counted down, and the one that leaves none closes the connection, as the pure step says |
| `DnsQueries.ClosedWhenAnswered` | app/src/main/jni/zdtun.c:830-870 | for every run on port 53 in which answers offer recursion and queries do not: all through it the connection counts the queries outstanding and the answer to the last closes it, if and only if there are never more than 255 |
| `DnsQueries.RecursionTested` | app/src/main/jni/zdtun.c:844-870 | the test of the flags, on a little-endian machine, is that of the RA bit, and tells answers from queries exactly where this agrees with the QR bit of section 4.1.1 of RFC 1035 |
| `Tunnel.ZdtunT.ForwardDatagram` | app/src/main/jni/zdtun.c:1556-1639 | UDP and ICMP packets of the client: socket, close on failure, time; the tuple changes exactly for the first packet of an ICMP connection that gets a socket |
| `Tunnel.ZdtunT.ForwardSegment` | app/src/main/jni/zdtun.c:1608-1639 | a segment changes only its own table entry and keeps every invariant of the tunnel |
| `Tunnel.ZdtunT.ForwardPacket` | app/src/main/jni/zdtun.c:1556-1604 | the same for UDP and ICMP, tuple and time included |
| `Tunnel.ZdtunT.ForwardFound` | app/src/main/jni/zdtun.c:1608-1639 | a packet as bytes, on the entry found for its tuple: the table afterwards is the specified one |
| `Tunnel.ZdtunT.Serve` | app/src/main/jni/zdtun.c:1940-1965 | one connection of the fd loop changes only its own table entry and keeps every invariant of the tunnel |
| `Tunnel.ZdtunT.HandleFd` | app/src/main/jni/zdtun.c:1936-1969 | connections are served in table order, each from its own state, up to the first that reports an error; the time of each is set as specified |
| `Tunnel.ZdtunT.CloseEntry` | app/src/main/jni/zdtun.c:640-683 | zdtun_conn_close on any entry, with any status: only that entry changes, by the pure close, its socket is given back, and every invariant of the tunnel is kept |
| `Tunnel.ZdtunT.DestroyConn` | app/src/main/jni/zdtun.c:689-711 | the entry is closed and removed, its socket and its protocol counter given back, all others unchanged |
| `Tunnel.ZdtunT.PurgeIdle` | app/src/main/jni/zdtun.c:1985-2003 | exactly the closed and timed-out entries go |
| `Tunnel.ZdtunT.SortByTime` | app/src/main/jni/zdtun.c:2010 | the table becomes the specified sorted one, and every invariant holds |
| `ConnTable.ByTimeSorts` | app/src/main/jni/zdtun.c:2010 | that is the same entries in order of time |
| `ConnTable.ByTimeIsStable` | app/src/main/jni/zdtun.c:2010 | with equal times in their old order |
| `Tunnel.ZdtunT.PurgeExpired` | app/src/main/jni/zdtun.c:1981-2022 | the table after a purge equals the specified one, and every invariant holds |
| `Tunnel.ZdtunT.Lookup` | app/src/main/jni/zdtun.c:779-826 | the table after a lookup equals the specified one; a closed connection is never handed out |
| `Tunnel.ZdtunT.Finalize` | app/src/main/jni/zdtun.c:458-465 | afterwards no socket is open, both fd sets are empty and all counters are 0 |
| `Tunnel.ZdtunT.TableHoldsRuns` | app/src/main/jni/zdtun.c:1608-1639 | every TCP connection in the table is in a state that a run of the step machine leads to, so what is proved of all runs holds of it |
| `Tunnel.ZdtunT.TuplesAreDistinct` | app/src/main/jni/zdtun.c:779-826 | the tuples in the table are pairwise distinct if and only if no two of its connections were opened by echo replies with the same tuple |
| `ConnTable.ServedFits` | app/src/main/jni/zdtun.c:1936-1969 | serving keeps the state of every connection, TCP or not, one that can occur |
| `ConnTable.ServedIsStep` | app/src/main/jni/zdtun.c:1936-1969 | what the fd loop does to a TCP connection is a step of the machine the run properties are about |
| `ConnTable.PurgedIsAlive` | app/src/main/jni/zdtun.c:1986-2003 | a purge keeps only connections that are alive and had a packet within 60 seconds for TCP, 30 for UDP, 5 for ICMP, and each of these as often as before, unless 128 of them hold a socket |
| `ConnTable.KeptAreFresh` | app/src/main/jni/zdtun.c:1986-2003 | idleness alone removes exactly the others |
| `ConnTable.LookupAnswers` | app/src/main/jni/zdtun.c:779-826 | a lookup finds a live connection and leaves the table alone, or adds an untouched one at its end, or finds none; the others stay, unless 128 sockets are open: then only fresh ones do |
| `ConnTable.SocketLimits` | app/src/main/jni/zdtun.c:221-247 | a socket is to be had below 128 open ones, if its fd is below 1024 |
| `ConnTable.ForcedPurge` | app/src/main/jni/zdtun.c:2005-2021 | a forced purge removes exactly num_open_sockets - 96 entries, none with a later packet than one that stays; 96 sockets stay if all entries held one; room is made if and only if one of those removed held a socket |
| `ConnTable.TupleKept` | app/src/main/jni/zdtun.c:1583-1585 | an entry keeps its tuple when a packet is forwarded on it, if and only if that is not an echo reply with an ID other than 0 opening the connection |
| `ConnTable.FoundAgain` | app/src/main/jni/zdtun.c:779-787 | an entry is found again under the tuple of a packet forwarded on it, under the same condition |
| `ConnTable.ForwardKeepsDistinct` | app/src/main/jni/zdtun.c:1583-1585 | forwarding keeps the tuples distinct if and only if it does not open a connection by an echo reply while one opened by an echo reply with the same tuple is in the table |
| `ConnTable.AddKeepsDistinct` | app/src/main/jni/zdtun.c:790-807 | a connection that a lookup adds has a tuple that no other has |
| `SocketAccounting.OpenAccounted` | app/src/main/jni/zdtun.c:221-266 | opening keeps: num_open_sockets is the number of entries with a socket and at most 128, live sockets pairwise distinct and below FD_SETSIZE, fd sets within the live sockets |
| `SocketAccounting.CloseAccounted` | app/src/main/jni/zdtun.c:271-286 | closing keeps it, and the decrement never runs at 0 |
| `SocketAccounting.OrderDoesNotMatter` | app/src/main/jni/zdtun.c:2010 | so does sorting the table |
| `Packet.MakeIpHdr` | app/src/main/jni/zdtun.c:537-564 | the header written in place is the specified one, checksum included, and the rest of the buffer is kept |
| `Packet.L3Checksum` | app/src/main/jni/zdtun.c:568-597 | segment first, then pseudo-header, gives the checksum of their concatenation |
| `Packet.BuildReplyTcpip` | app/src/main/jni/zdtun.c:601-632 | the packet built in place around options and payload is the specified one, its window field computed from the free space of the send buffer |
| `Packet.BuildReplyUdp` | app/src/main/jni/zdtun.c:1826-1844 | the same for UDP |
| `Packet.BuildReplyIcmp` | app/src/main/jni/zdtun.c:1712-1730 | the same for ICMP, the checksum before or after the IP header by version |
| `Packet.Parser.ParseL3` | app/src/main/jni/zdtun.c:886-963 | the IP header read byte by byte is the specified one, no byte outside the packet |
| `Packet.Parser.ParseTransport` | app/src/main/jni/zdtun.c:981-1038 | the same for the transport header, with the code returned for each refusal |
| `Packet.Parser.Parse` | app/src/main/jni/zdtun.c:883-1051 | the statements of zdtun_parse_pkt give the specified packet, code and fragment table |
| `Packet.TcpRoundTrip` | app/src/main/jni/zdtun.c:474-480 | every TCP packet built is accepted with the swapped tuple, no fragment flag and its own lengths |
| `Packet.UdpRoundTrip` | app/src/main/jni/zdtun.c:474-480 | the same for UDP |
| `Packet.IcmpRoundTrip` | app/src/main/jni/zdtun.c:474-480 | every ICMP message built is accepted; it is accepted with the swapped tuple if and only if the connection was opened by an echo request or with ID 0, and the message is a reply or the ID is 0 |
| `Packet.IcmpRewrites` | app/src/main/jni/zdtun.c:1027-1034 | the tuple of an ICMP packet is left as it is by the echo ID written over its source port if and only if it is an echo request or the ID is 0 |
| `Packet.TcpFields` | app/src/main/jni/zdtun.c:606-632 | the client reads in it the sequence numbers, flags, window, offset, options and payload put in |
| `Packet.UdpFields` | app/src/main/jni/zdtun.c:1826-1844 | the client reads in it the ports, the length and the payload |
| `Packet.IcmpFields` | app/src/main/jni/zdtun.c:1712-1728 | the message goes out as received but for echo ID and checksum |
| `Packet.Ipv4Fields` | app/src/main/jni/zdtun.c:538-551 | version, lengths, don't-fragment flag, hops, protocol and swapped addresses of the header built |
| `Packet.Ipv6Fields` | app/src/main/jni/zdtun.c:553-563 | the same for IPv6 |
| `IpFormats.Ipv4Read` | app/src/main/jni/zdtun.c:901-930 | every IPv4 header laid out as in section 3.1 of RFC 791 is read field by field: a fragment is one with more to come or an offset, a first one has offset 0, and bytes past the total length are dropped; refused exactly if the total length does not cover the header |
| `IpFormats.Ipv6Read` | app/src/main/jni/zdtun.c:931-955 | every IPv6 header (section 3 of RFC 8200) is read so; extension headers are refused |
| `IpFormats.NoIpRead` | app/src/main/jni/zdtun.c:886-899 | anything shorter than 20 bytes or of another version is refused |
| `IpFormats.TcpRead` | app/src/main/jni/zdtun.c:981-999 | ports and header length of every TCP header; refused exactly if the packet ends before 20 bytes or before the options do |
| `IpFormats.IcmpRead` | app/src/main/jni/zdtun.c:1011-1034 | ICMP: echo ID as source port of a request and destination port of a reply, -2 for other types, -1 below 8 bytes |
| `Packet.AnyPorts` | app/src/main/jni/zdtun.c:1037-1046 | acceptance does not depend on the fragment table |
| `Packet.ParsedWithinPacket` | app/src/main/jni/zdtun.c:1048-1050 | header lengths and payload add up to the accepted length, which is within the packet |
| `Packet.TrailingBytesIgnored` | app/src/main/jni/zdtun.c:915-947 | bytes after the end of the IP packet make no difference |
| `Packet.FragmentsShareAPort` | app/src/main/jni/zdtun.c:965-978 | later fragments get the ports of the first with their IP ID, and the last forgets them |
| `Packet.Ipv4HeaderVerifies` | app/src/main/jni/zdtun.c:552 | the IPv4 header built sums up to 0xFFFF in either byte order |
| `Packet.SegmentVerifies` | app/src/main/jni/zdtun.c:568-597 | every segment with the checksum stored sums up to 0xFFFF with the standard pseudo-header, although the IPv6 length is laid out differently |
| `Packet.UdpChecksumZero` | app/src/main/jni/zdtun.c:1840-1844 | a UDP packet over IPv6 carries checksum 0 if and only if its sum is 0xFFFF |
| `Checksum.CalcChecksum` | app/src/main/jni/utils.c:208-225 | for all lengths up to 65535 the 32-bit sum does not overflow and the result is the canonical residue mod 65535 |
| `Checksum.SegmentThenPseudo` | app/src/main/jni/zdtun.c:568-597 | summing the segment and then the pseudo-header equals summing their concatenation, for odd lengths too |
| `Checksum.StoredComplementVerifies` | app/src/main/jni/zdtun.c:552 | storing the complement makes the whole sum 0xFFFF |
| `Checksum.ByteOrderIndependence` | app/src/main/jni/utils.c:208-225 | the little-endian result is the byte swap of the big-endian one (section 2(B) of RFC 1071) |
| `ReversedLines.ReadAllLines` | app/src/main/java/com/emanuelef/remote_capture/ReversedLinesFileReader.java:132-149 | for every content and every block size the lines up to the first null are the reversed split, without the first segment if empty and without the first empty line then met; reading terminates |
| `ReversedLines.BackLinesAreReversedSplit` | app/src/main/java/com/emanuelef/remote_capture/ReversedLinesFileReader.java:217-256 | scanning for line ends from the end gives the reversed forward split on CR LF, LF, CR |
| `ReversedLines.SplitOfText` | app/src/main/java/com/emanuelef/remote_capture/ReversedLinesFileReader.java:123 | the forward split of lines joined by any of the bytes 13 10, 10 and 13 gives the lines |
| `ReversedLines.LinesFromTheEnd` | app/src/main/java/com/emanuelef/remote_capture/ReversedLinesFileReader.java:132-149 | a text without empty lines is read line by line from its end, with or without a line end at the end |
| `ReversedLines.GetNewLineMatchByteCount` | app/src/main/java/com/emanuelef/remote_capture/ReversedLinesFileReader.java:279-291 | the loop over newline sequences finds the length of the one that ends here, or 0 |
| `ReversedLines.FilePart.ReadLine` | app/src/main/java/com/emanuelef/remote_capture/ReversedLinesFileReader.java:217-256 | a block returns the last unread line, or hands its rest to the block before |
| `ReversedLines.ReversedLinesFileReader.RollOver` | app/src/main/java/com/emanuelef/remote_capture/ReversedLinesFileReader.java:196-212 | the left-over bytes go to the previous block; neither IllegalStateException is reachable |
| `ReversedLines.ReversedLinesFileReader.ReadLine` | app/src/main/java/com/emanuelef/remote_capture/ReversedLinesFileReader.java:132-149 | one line of the specified list at a time |
| `ReversedLines.ReversedLinesFileReader.constructor` | app/src/main/java/com/emanuelef/remote_capture/ReversedLinesFileReader.java:83-125 | block count and length of the last block cover the file exactly |
| `ConnectionsRegister.ConnectionsRegister.NewConnections` | app/src/main/java/com/emanuelef/remote_capture/ConnectionsRegister.java:129-222 | the register holds the last mSize of all connections given since the last reset and counts the others; a listener replaying the events has the same sequence; every counter that was exact still is; connection counts and byte totals of each app stay the sums over the connections counted, those dropped included, and mNumBlocked and the blocked count of each app the numbers of blocked ones among them; mLastFirewallBlock is the latest time of a blocked connection added, if later |
| `ConnectionsRegister.ConnectionsRegister.ConnectionsUpdates` | app/src/main/java/com/emanuelef/remote_capture/ConnectionsRegister.java:236-282 | updates reach exactly the connections held, and the positions told to listeners are theirs; counters stay exact, the maximum for byte counts that do not decrease; the totals of each app stay exact if and only if every update for a connection held carries statistics or the bytes that connection has anyway; each connection held has followed its updates; mNumBlocked and the blocked count of each app stay the numbers of blocked connections among those held and dropped; mLastFirewallBlock is the latest time at which an update left a connection blocked, if later |
| `ConnectionsRegister.ConnectionsRegister.HeldAfter` | app/src/main/java/com/emanuelef/remote_capture/ConnectionsRegister.java:263-266 | after updates a connection held has the blocked state, the last time, the bytes and the blacklist state of its last update with statistics, or what it had if there is none, and is accounted as blocked exactly if it is |
| `ConnectionsRegister.LastUpdateWins` | app/src/main/java/com/emanuelef/remote_capture/ConnectionsRegister.java:263-266 | so it is for every list of updates |
| `ConnectionsRegister.PositionsNameIds` | app/src/main/java/com/emanuelef/remote_capture/ConnectionsRegister.java:268 | the positions told to listeners are those of the connections updated, in the order of the updates |
| `ConnectionsRegister.LatestBlockIs` | app/src/main/java/com/emanuelef/remote_capture/ConnectionsRegister.java:124-125 | mLastFirewallBlock is the maximum of what it was and the times of the blocked connections processed |
| `ConnectionsRegister.ConnectionsRegister.Reset` | app/src/main/java/com/emanuelef/remote_capture/ConnectionsRegister.java:284-295 | the register is empty; each counter is exact afterwards if and only if it was 0; the totals per app are, as they are cleared |
| `ConnectionsRegister.UpdateTotals` | app/src/main/java/com/emanuelef/remote_capture/ConnectionsRegister.java:254-258 | accounting an update keeps the totals of every app the sums if and only if the update carries statistics or the bytes of its connection; otherwise they fall short, and stay so |
| `ConnectionsRegister.ConnectionsRegister.GetConn` | app/src/main/java/com/emanuelef/remote_capture/ConnectionsRegister.java:321-327 | the i-th oldest connection, or null |
| `ConnectionsRegister.ConnectionsRegister.GetConnPositionById` | app/src/main/java/com/emanuelef/remote_capture/ConnectionsRegister.java:329-340 | the position of the connection with that id, or -1 if there is none |
| `ConnectionsRegister.ConnectionsRegister.GetConnById` | app/src/main/java/com/emanuelef/remote_capture/ConnectionsRegister.java:342-348 | exactly the connection with that id |
| `ConnectionsRegister.ConnectionsRegister.ProcessConnectionStatus` | app/src/main/java/com/emanuelef/remote_capture/ConnectionsRegister.java:101-126 | alerts and blocks are counted once and withdrawn when cleared, blocks in the total and in that of the app; the blocked total stays the sum over the apps; mLastFirewallBlock grows to the time of a blocked connection |
| `ConnectionsRegister.ConnectionsRegister.CalculateMaxBytes` | app/src/main/java/com/emanuelef/remote_capture/ConnectionsRegister.java:224-233 | the maximum over the ring |
| `ConnectionsRegister.ConnectionsRegister.UpdateOne` | app/src/main/java/com/emanuelef/remote_capture/ConnectionsRegister.java:249-270 | the ring position computed from the id holds that connection: the assert never fails |
| `ConnectionsRegister.ReplayAdds` | app/src/main/java/com/emanuelef/remote_capture/ConnectionsRegister.java:210-221 | removed and added events rebuild the new sequence from the old one |
| `ConnectionsRegister.LastNTrims` | app/src/main/java/com/emanuelef/remote_capture/ConnectionsRegister.java:130-147 | dropping from a long batch and from the ring together keep the last mSize |
| `HttpReassembly.SegmentationIndependence` | app/src/main/java/com/emanuelef/remote_capture/HTTPReassembly.java:97-296 | however a stream of messages with bodies is cut, header blocks at line ends within their first 1024 bytes but not before the blank line, the payloads emitted are exactly the messages in order, once each and not as raw, a body with an encoding decoded as a whole |
| `HttpReassembly.Conservation` | app/src/main/java/com/emanuelef/remote_capture/HTTPReassembly.java:97-296 | while no header read asks for chunked transfer or an encoding, emitted payloads, header bytes and body bytes held are all input bytes in order, and outside the header state a header is held |
| `HttpReassembly.HandleFollows` | app/src/main/java/com/emanuelef/remote_capture/HTTPReassembly.java:207-296 | one chunk emits every message it completes and leaves the state of the one it stops in |
| `HttpReassembly.HeadersHeld` | app/src/main/java/com/emanuelef/remote_capture/HTTPReassembly.java:179-190 | header pieces without a blank line, at most 1024 bytes in all, are held and nothing is emitted |
| `HttpReassembly.HeadersTooLong` | app/src/main/java/com/emanuelef/remote_capture/HTTPReassembly.java:179-190 | the piece that passes 1024 bytes is emitted with all that was held, as raw, and reassembly is off |
| `HttpReassembly.NothingHeld` | app/src/main/java/com/emanuelef/remote_capture/HTTPReassembly.java:195-205 | once it is off, no byte is held after any chunk |
| `HttpReassembly.UpgradeStops` | app/src/main/java/com/emanuelef/remote_capture/HTTPReassembly.java:163-204 | an Upgrade line turns it off, and the chunk is emitted |
| `HttpChunked.ChunkedReassembled` | app/src/main/java/com/emanuelef/remote_capture/HTTPReassembly.java:207-275 | however the body of a chunked message is cut, but not inside a size line or a line end, one message is emitted: the header block and the bytes of the blocks, decoded as a whole, without size lines and line ends, and with what follows the last size line in its piece |
| `HttpChunked.ExactWithoutTail` | app/src/main/java/com/emanuelef/remote_capture/HTTPReassembly.java:207-275 | without an encoding that is the content if and only if nothing follows the last size line in its piece |
| `HttpChunked.BlocksFollow` | app/src/main/java/com/emanuelef/remote_capture/HTTPReassembly.java:207-296 | a piece of the blocks, from any place between two or in the bytes of one, adds exactly its bytes |
| `HttpReassembly.CoalescedMessages` | app/src/main/java/com/emanuelef/remote_capture/HTTPReassembly.java:233-296 | two messages in one chunk are told apart if and only if the first has a body |
| `HttpReassembly.HTTPReassembly.HandleChunk` | app/src/main/java/com/emanuelef/remote_capture/HTTPReassembly.java:97-296 | the recursive handler equals the specified one and terminates |
| `HttpReassembly.HTTPReassembly.ReadHeaders` | app/src/main/java/com/emanuelef/remote_capture/HTTPReassembly.java:103-193 | header bytes, sizes and header values taken |
| `HttpReassembly.HTTPReassembly.ReadBody` | app/src/main/java/com/emanuelef/remote_capture/HTTPReassembly.java:207-255 | chunk-size line, body bytes up to the message end, and where the next one starts |
| `HttpReassembly.HTTPReassembly.ReassembleChunks` | app/src/main/java/com/emanuelef/remote_capture/HTTPReassembly.java:338-355 | the chunks concatenated |
| `HttpReassembly.ReassembleAll` | app/src/main/java/com/emanuelef/remote_capture/HTTPReassembly.java:97-296 | a whole connection: the messages of every stream the chunks are a clean cut of |
| `IpLru.LruInclusion` | app/src/main/jni/ip_lru.c:69-135 | after the same adds and finds, the smaller of two caches is a subsequence of the larger in recency order with equal hosts, so each of its hits is the same hit there |
| `IpLru.HitIsLatestAdd` | app/src/main/jni/ip_lru.c:87-135 | keys are unique, the size bound holds, a hit is the host of the latest add; a key hits if and only if it was added and fewer than max_size other keys were added or hit since it last was |
| `IpLru.NothingEvicted` | app/src/main/jni/ip_lru.c:87-135 | as long as no more keys are added than fit, every lookup answers as the unbounded map |
| `IpLru.Cache.FindEntry` | app/src/main/jni/ip_lru.c:69-83 | an entry found becomes the most recent one |
| `IpLru.Cache.Add` | app/src/main/jni/ip_lru.c:87-127 | equals the specified operation |
| `IpLru.Cache.Find` | app/src/main/jni/ip_lru.c:131-135 | equals the specified operation, and the host is that of the map |
| `RecordLifetime.RecordIsSafe` | app/src/main/jni/vpnrelay.c:837-862 | for every run: a record is in new_conns or conns_updates if and only if its notification is pending, once in the two together; it is released at most once and only after its connection is closed |
| `RecordLifetime.StepKeeps` | app/src/main/jni/vpnrelay.c:1494-1517 | any single event keeps that, and that what a lookup or an iteration can reach is not released; a notification on a connection closed since the last dump is one of the events |
| `RecordLifetime.LateNotification` | app/src/main/jni/vpnrelay.c:2651-2671 | from the close of a connection until the next dump, whatever happens in between, its record is pending and not released, so that a further notification adds nothing |
| `RecordLifetime.AccountingIsHarmless` | app/src/main/jni/vpnrelay.c:1423-1430 | accounting a packet leaves the records alone if and only if its connection is not closed or was closed with the callback |
| `RecordLifetime.CallbackKeeps` | app/src/main/jni/zdtun.c:640-683 | also when a refused RST makes the close callback run twice |
| `RecordLifetime.DumpReleases` | app/src/main/jni/vpnrelay.c:2190-2196 | a dump releases exactly the records whose close callback ran since the last one |
| `RecordLifetime.DumpsContinueIds` | app/src/main/jni/vpnrelay.c:1062-1068 | the new connections of a dump have consecutive ids that go on where the last dump stopped |
| `RecordLifetime.NotificationArrives` | app/src/main/jni/vpnrelay.c:2043-2086 | for every run: what is notified of a connection that is new, updated or closed is told by the next dump, as a new connection if no dump told of it before, otherwise as an update |
| `RecordLifetime.ToldInOrder` | app/src/main/jni/vpnrelay.c:2043-2086 | for every run: the dumps tell of each connection as a new one once, in the order of the ids |
| `RecordLifetime.ReleasedAtTheEnd` | app/src/main/jni/vpnrelay.c:2785-2793 | after shutdown, whichever RSTs the client refuses, every record was released exactly once, except those whose connection got an error status without the callback and were delivered before |
| `RecordLifetime.Relay.NotifyUpdate` | app/src/main/jni/vpnrelay.c:837-862 | queued once, on a record that is still there |
| `RecordLifetime.Relay.NewConnection` | app/src/main/jni/vpnrelay.c:1047-1068 | a new record, queued at once, with the next id |
| `RecordLifetime.Relay.Update` | app/src/main/jni/vpnrelay.c:1484-1493 | an update reaches only a record that is still there: that of a connection not closed, or closed with its last notification pending |
| `RecordLifetime.Relay.Fail` | app/src/main/jni/zdtun.c:1172-1178 | an error status without the callback leaves the record unmarked |
| `RecordLifetime.Relay.ConnectionClosed` | app/src/main/jni/vpnrelay.c:1494-1517 | last notification and mark |
| `RecordLifetime.Relay.UpdateConnStatus` | app/src/main/jni/vpnrelay.c:1423-1430 | a closed status marks the record, any other leaves it alone |
| `RecordLifetime.Relay.ConnClose` | app/src/main/jni/zdtun.c:640-683 | equals the specified close, twice through the callback after a refusal |
| `RecordLifetime.Relay.DestroyConn` | app/src/main/jni/zdtun.c:689-711 | a connection closed before does not touch its record, which may be gone |
| `RecordLifetime.Relay.SendConnectionsDump` | app/src/main/jni/vpnrelay.c:2043-2086 | the app is told of the records in the two lists, which are still there, and every pending flag is cleared |
| `RecordLifetime.Relay.ConnsClear` | app/src/main/jni/vpnrelay.c:1822-1837 | marked records released, none twice and none read after its release |
| `RecordLifetime.Relay.Housekeeping` | app/src/main/jni/vpnrelay.c:2190-2196 | equals the specified dump |
| `RecordLifetime.Relay.Finish` | app/src/main/jni/vpnrelay.c:2785-2793 | equals the specified shutdown, whichever RSTs the client refuses |
| `Counterexamples.RetransmissionQueuedTwice` | app/src/main/jni/zdtun.c:1271-1278 | a run in which one byte, written and retransmitted, is queued twice |
| `Counterexamples.FinAcknowledgedLow` | app/src/main/jni/zdtun.c:1306 | a run in which a FIN that finds a byte queued is acknowledged one too low |
| `Counterexamples.ByteBeforeSynAck` | app/src/main/jni/zdtun.c:1936-1962 | a run in which a byte reaches the client with no SYN+ACK before it |
| `Counterexamples.DroppedAfterClose` | app/src/main/jni/zdtun.c:1357-1366 | a run in which a byte sent after the server closed is acknowledged, and neither given to the server nor queued |
| `Counterexamples.WindowWraps` | app/src/main/jni/zdtun.c:1344-1353 | a run in which an ACK below the bytes sent makes the window 2^32 - 1 and a byte is sent past the edge offered |
| `Counterexamples.FirstWindowDoubled` | app/src/main/jni/zdtun.c:1241 | a SYN whose window of 1 becomes a first window of 2 |
| `Counterexamples.MssTooLarge` | app/src/main/jni/zdtun.c:1733-1737 | a run after a SYN with an MSS of 65535 in which a payload leaves no room for the headers |
| `Counterexamples.ShortFirstPiece` | app/src/main/jni/socks5.c:165-171 | a run in which a granting reply whose first piece has 3 bytes ends the connection |
| `Counterexamples.LongNameLost` | app/src/main/jni/socks5.c:81-109 | a run in which the proxy cannot read the credentials sent |
| `Counterexamples.RequestBeforeGreeting` | app/src/main/jni/zdtun.c:1763-1775 | a run in which the proxy gets the connect request before the greeting |
| `Counterexamples.SynAckWhileConnecting` | app/src/main/jni/zdtun.c:1763-1775 | a run in which the client has its SYN+ACK while the connection is still being made |
| `Counterexamples.NothingToAskFor` | app/src/main/jni/zdtun.c:1344-1353 | a run in which the socket stays readable with 0 bytes to ask for |
| `Counterexamples.AnswerNotCounted` | app/src/main/jni/zdtun.c:844-870 | a DNS connection that is still open after the one query was answered, by a server that offers no recursion |
| `Counterexamples.QueriesWrap` | app/src/main/jni/zdtun.c:830-840 | a DNS connection that counts no query after 256 |
| `Counterexamples.UdpZeroHappens` | app/src/main/jni/zdtun.c:1840-1844 | for every IPv6 flow some payload makes the UDP checksum 0 |
| `Counterexamples.SecondEntry` | app/src/main/jni/zdtun.c:1583-1585 | two echo replies with one tuple, from the empty table: two entries with the same tuple |
| `Counterexamples.PurgeFreesNothing` | app/src/main/jni/zdtun.c:2005-2021 | a table of connections whose forced purge removes 32 of them and frees no socket |
| `Counterexamples.RecordLost` | app/src/main/jni/zdtun.c:1172-1178 | a run after which shutdown does not release a record |
| `Counterexamples.ResetKeepsCount` | app/src/main/java/com/emanuelef/remote_capture/ConnectionsRegister.java:284-295 | a register that was reset and still counts a connection |
| `Counterexamples.BytesTakenBack` | app/src/main/java/com/emanuelef/remote_capture/ConnectionsRegister.java:254-258 | a register in which an update without statistics takes the bytes of its connection out of the totals of the app |
| `Counterexamples.BlankLineCut` | app/src/main/java/com/emanuelef/remote_capture/HTTPReassembly.java:105-106 | a message cut before the blank line of its header block, of which nothing is emitted |
| `Counterexamples.BlankLineInBody` | app/src/main/java/com/emanuelef/remote_capture/HTTPReassembly.java:207-250 | a chunked message whose last blank line is emitted as its body |
| `Counterexamples.EmptyBodySwallows` | app/src/main/java/com/emanuelef/remote_capture/HTTPReassembly.java:233-296 | a message with no body in one chunk with another, which is taken for its body |

## Left out

- TcpUpstream.RunIsUp: stops at the client's first FIN, because payload in a FIN segment is acknowledged without being queued and a repeated FIN passes the keep-alive test.
- TcpUpstream.KeepAliveDataIff: asks for less than 2 GB in the queue, so that offsets mod 2^32 name one byte.
- TcpDownstream.RunIsDown: the order and the content of what the client receives are stated for runs in which nothing is read while connecting; TcpSocks5.EarlyReadMisnumbers shows that this is needed.
- TcpFlow.NothingPastTheEdge: takes the window of the SYN as the code reads it; TcpFlow.SynWindowScaled says when that is what the client offered. Like TcpFlow.RunFlows it is stated for runs in which nothing is read while connecting.
- TcpFlow.RunFlows: a window scale above 14 is shifted mod 2^32, where C leaves shifts of 32 and more undefined; TcpFlow.PayloadsFit and TcpWire.RepliesFit ask for a scale below 32.
- DnsQueries.ClosedWhenAnswered: for a client that takes every packet; a packet refused closes the connection at once, as Tunnel.ZdtunT.SendToClient says. 16-bit DNS flags are read as a little-endian machine does.
- TcpWire.SegmentRead: headers of 20 bytes and more; for a shorter one the code takes 8-bit differences for the length of the options, and reads them behind the header, as TcpWire.SegmentOf says.
- Tunnel.ZdtunT.ForwardDatagram: does not model the UDP path through a SOCKS5 proxy, which the capture engine never takes (it proxies TCP only), nor the port table shared by UDP sockets, which is also counted down by connections that never bound.
- Tunnel.ZdtunT.Lookup: entries are compared by the tuple they were entered under and the current one; two tuples with one hash value are taken to differ. Tuples are those of packets that are no fragments, which both callers discard before. The proxy mode, which the caller sets before the first packet is forwarded, is an argument.
- IpFormats.Ipv4Read: headers of 20 bytes and more; the code also accepts a header length below 20, and then reads the transport header inside the fixed fields, as Packet.ParseIp says.
- Datagrams.MessagesArrive: messages that fit in the reply buffer, which is all that recv() is given room for.
- Packet.TcpRoundTrip: packets of at most 65535 bytes, for a socket of the tuple's own IP version; DNAT to the other version is not part of this model.
- Packet.BuildReplyTcpip: the free space of the send buffer, which is computed from what the kernel answers, comes in as an argument.
- ReversedLines.ReadAllLines: encodings in which a newline takes one byte; decoding of lines into strings is not part of this model.
- ConnectionsRegister.ConnectionsRegister.NewConnections: consecutive ids, as RecordLifetime.DumpsContinueIds provides them; app statistics are values, one list of events stands for all listeners.
- HttpReassembly.SegmentationIndependence: header lines that say together what they say when read in pieces; how a line is read, and a body decoded, are parameters.
- HttpChunked.ChunkedReassembled: the header block comes in the first piece; a size line must be read the same whatever follows it.
- HttpReassembly.HTTPReassembly.ReadHeaders: what the header lines of a block say is a parameter, so their spelling is not modelled.
- HttpReassembly.HTTPReassembly.ReadBody: what a chunk-size line says is a parameter.
- RecordLifetime.StepKeeps: an accounted packet reaches only connections that are not closed, as TcpDownstream.RunIsDown says of the packets sent and the test before forwarding of those received.
- RecordLifetime.RecordIsSafe: runs without allocation or JNI failure; ids as unbounded numbers; nDPI data, the UID resolution that runs over new connections and payload chunks are not part of this model.
- Tunnel.ZdtunT.EnqueueTcpData: in the tunnel the tx_queue of a connection is a sequence field and its nested TCP struct a value field; that the linked items behave as that sequence is proved apart, in TxQueue.
- Allocation failure, the Windows branches, logging and the callbacks' own work.
- The free space of the send buffer, TCP_NODELAY, MSG_MORE and half-closing of the socket.
- The blocking policy of vpnrelay.c, blacklists, CIDR matching, MITM add-on, exports, services and user interface.
