/** A UDP connection to port 53: closed by the answer to its last query, over every run. */
module DnsQueries {
  import opened Words
  import opened Tuples
  import opened TcpProxy
  import opened ConnTable

  /** A packet from the client that is sent, or one from the server. */
  datatype DnsEvent = Asked(m: bytes) | Answered(m: bytes)

  function DnsStep(env: Env, c: Conn, e: DnsEvent): Conn {
    match e
    case Asked(m) => DatagramForward(env, c, Udp, true, None, None, m).c
    case Answered(m) => if c.open && c.inRead then DatagramReply(env, c, Message(m)).c else c
  }

  function DnsRun(env: Env, c: Conn, events: seq<DnsEvent>): Conn {
    if events == [] then c else DnsStep(env, DnsRun(env, c, events[..|events| - 1]), events[|events| - 1])
  }

  /** The QR bit (section 4.1.1 of RFC 1035): the top bit of the third byte. */
  predicate IsAnswer(m: bytes)
    requires |m| >= DNS_PACKET_LEN
  {
    m[2] >= 0x80
  }

  /** The RA bit, by which a server offers recursion: the top bit of the fourth byte. */
  predicate OffersRecursion(m: bytes)
    requires |m| >= DNS_PACKET_LEN
  {
    m[3] >= 0x80
  }

  /** The code tests the RA bit in place of the QR bit, and tells answers from queries exactly where the two agree. */
  lemma RecursionTested(m: bytes)
    requires |m| >= DNS_PACKET_LEN
    ensures TakenForAnswer(m) <==> OffersRecursion(m)
    ensures (TakenForAnswer(m) <==> IsAnswer(m)) <==> (IsAnswer(m) <==> OffersRecursion(m))
  {
    TopBit(m[2], m[3]);
  }

  lemma TopBit(a: byte, b: byte)
    ensures (a as int + b as int * 0x100) / 0x8000 % 2 == 1 <==> b >= 0x80
  {
  }

  function Next(n: Option<nat>, e: DnsEvent): Option<nat> {
    if n.None? || |e.m| < DNS_PACKET_LEN then n
    else
      match e
      case Asked(m) => if IsAnswer(m) then n else Some(n.value + 1)
      case Answered(m) => if !IsAnswer(m) || n.value == 0 then n else if n.value == 1 then None else Some(n.value - 1)
  }

  /** How many queries were sent and not answered; None once an answer leaves none. */
  function Outstanding(events: seq<DnsEvent>): Option<nat> {
    if events == [] then Some(0) else Next(Outstanding(events[..|events| - 1]), events[|events| - 1])
  }

  /** The connection is closed when no query is outstanding any more, and counts them till then. */
  predicate Counts(c: Conn, n: Option<nat>) {
    && c.service == Dns && !c.isTcp
    && match n
       case None => c.status == Closed && !c.open
       case Some(k) =>
         && c.dns == k
         && ((c.status == New && !c.open && k == 0) || (c.status == Connected && c.open && c.inRead))
  }

  predicate CountsAll(env: Env, c: Conn, events: seq<DnsEvent>) {
    forall i :: 0 <= i <= |events| ==> Counts(DnsRun(env, c, events[..i]), Outstanding(events[..i]))
  }

  predicate InByte(n: Option<nat>) {
    n.Some? ==> n.value <= 255
  }

  /** Never more queries outstanding than the counter can hold. */
  predicate AtMost255(events: seq<DnsEvent>) {
    forall i :: 0 <= i <= |events| ==> InByte(Outstanding(events[..i]))
  }

  /** Answers offer recursion, and queries do not. */
  predicate Recursive(events: seq<DnsEvent>) {
    forall i :: 0 <= i < |events| && |events[i].m| >= DNS_PACKET_LEN ==> (IsAnswer(events[i].m) <==> OffersRecursion(events[i].m))
  }

  // ------------------------------------------------------------------ one packet

  lemma AskedCounts(env: Env, c: Conn, m: bytes)
    requires c.service == Dns && !c.isTcp && !Dead(c.status) && (c.status == New ==> !c.open)
    ensures DnsStep(env, c, Asked(m)) ==
            AfterQuery((if c.status == New then c.(open := true, inRead := true, status := Connected) else c)
                         .(requests := c.requests + [m]), m)
  {
    hide AfterQuery;
  }

  lemma AnsweredCounts(env: Env, c: Conn, m: bytes)
    requires c.service == Dns && c.open && c.inRead && env.accepts(c.sends)
    ensures exists p :: DnsStep(env, c, Answered(m)) == AfterAnswer(env, Accepted(c, p), m)
  {
    hide AfterAnswer;
    var p := Reply(c, Kind.Datagram, m);
    assert SendToClient(env, c, p) == Outcome(Accepted(c, p), 0);
    assert DnsStep(env, c, Answered(m)) == AfterAnswer(env, Accepted(c, p), m);
  }

  lemma LastAnswerCloses(env: Env, c: Conn, m: bytes)
    requires c.service == Dns && !c.isTcp && c.status == Connected && c.open && c.inRead && |m| >= DNS_PACKET_LEN
    ensures var c1 := AfterAnswer(env, c, m);
            if !TakenForAnswer(m) || c.dns == 0 then c1 == c
            else if c.dns == 1 then c1.service == Dns && !c1.isTcp && c1.status == Closed && !c1.open
            else c1 == c.(dns := c.dns - 1)
  {
    hide TakenForAnswer;
  }

  lemma StepCounts(env: Env, c: Conn, n: Option<nat>, e: DnsEvent)
    requires Counts(c, n) && (forall i: nat :: env.accepts(i))
    requires |e.m| >= DNS_PACKET_LEN ==> (IsAnswer(e.m) <==> OffersRecursion(e.m))
    requires InByte(Next(n, e))
    ensures Counts(DnsStep(env, c, e), Next(n, e))
  {
    if |e.m| >= DNS_PACKET_LEN {
      RecursionTested(e.m);
    }
    if n.None? {
      ClosedStays(env, c, e);
    } else if e.Asked? {
      AskedCounts(env, c, e.m);
      hide DnsStep, TakenForAnswer, IsAnswer, OffersRecursion;
    } else if c.open {
      AnsweredCounts(env, c, e.m);
      hide DnsStep, TakenForAnswer, IsAnswer, OffersRecursion;
      var p :| DnsStep(env, c, e) == AfterAnswer(env, Accepted(c, p), e.m);
      if |e.m| >= DNS_PACKET_LEN {
        LastAnswerCloses(env, Accepted(c, p), e.m);
      }
    }
  }

  lemma ClosedStays(env: Env, c: Conn, e: DnsEvent)
    requires Counts(c, None)
    ensures DnsStep(env, c, e) == c
  {
  }

  // ------------------------------------------------------------------ runs

  /** From a new connection on, whose client takes every packet, and with answers that offer recursion: all through a run
      the connection counts the queries outstanding, and the answer to the last of them closes it, if and only if there
      are never more than 255. */
  lemma {:induction false} ClosedWhenAnswered(env: Env, t: Tuple, mode: ProxyMode, events: seq<DnsEvent>)
    requires ServiceOf(t) == Dns && (forall i: nat :: env.accepts(i)) && Recursive(events)
    ensures CountsAll(env, NewFor(t, mode), events) <==> AtMost255(events)
  {
    var c0 := NewFor(t, mode);
    if events == [] {
      assert events[..0] == [];
      assert Counts(c0, Some(0));
    } else {
      var n := |events| - 1;
      var before := events[..n];
      assert Recursive(before) by {
        assert forall i :: 0 <= i < n ==> before[i] == events[i];
      }
      ClosedWhenAnswered(env, t, mode, before);
      SplitCounts(env, c0, events);
      SplitAtMost(events);
      assert DnsRun(env, c0, events) == DnsStep(env, DnsRun(env, c0, before), events[n]);
      assert Outstanding(events) == Next(Outstanding(before), events[n]);
      hide Counts, DnsRun, DnsStep, Recursive, Next, Outstanding;
      if AtMost255(events) {
        StepCounts(env, DnsRun(env, c0, before), Outstanding(before), events[n]);
      } else {
        CountIsByte(DnsRun(env, c0, events), Outstanding(events));
      }
    }
  }

  lemma CountIsByte(c: Conn, n: Option<nat>)
    ensures Counts(c, n) ==> InByte(n)
  {
  }

  lemma SplitCounts(env: Env, c: Conn, events: seq<DnsEvent>)
    requires events != []
    ensures var n := |events| - 1;
            && (CountsAll(env, c, events) <==> CountsAll(env, c, events[..n]) && Counts(DnsRun(env, c, events), Outstanding(events)))
            && (CountsAll(env, c, events[..n]) ==> Counts(DnsRun(env, c, events[..n]), Outstanding(events[..n])))
  {
    hide Counts, DnsRun, Outstanding;
    var n := |events| - 1;
    var before := events[..n];
    assert events[..n + 1] == events && before[..n] == before;
    if CountsAll(env, c, events) {
      forall i | 0 <= i <= n
        ensures Counts(DnsRun(env, c, before[..i]), Outstanding(before[..i]))
      {
        assert before[..i] == events[..i];
      }
    }
    if CountsAll(env, c, before) && Counts(DnsRun(env, c, events), Outstanding(events)) {
      forall i | 0 <= i <= n + 1
        ensures Counts(DnsRun(env, c, events[..i]), Outstanding(events[..i]))
      {
        assert i <= n ==> before[..i] == events[..i];
      }
    }
  }

  lemma SplitAtMost(events: seq<DnsEvent>)
    requires events != []
    ensures AtMost255(events) <==> AtMost255(events[..|events| - 1]) && InByte(Outstanding(events))
  {
    hide Outstanding, InByte;
    var n := |events| - 1;
    var before := events[..n];
    assert events[..n + 1] == events;
    if AtMost255(events) {
      forall i | 0 <= i <= n
        ensures InByte(Outstanding(before[..i]))
      {
        assert before[..i] == events[..i];
      }
    }
    if AtMost255(before) && InByte(Outstanding(events)) {
      forall i | 0 <= i <= n + 1
        ensures InByte(Outstanding(events[..i]))
      {
        assert i <= n ==> before[..i] == events[..i];
      }
    }
  }
}
