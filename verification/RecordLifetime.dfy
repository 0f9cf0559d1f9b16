/** vpnrelay.c: the record kept for each tunnel connection, from the callback that opens it to its release. */
module RecordLifetime {
  import opened Words

  // ------------------------------------------------------------------ states and steps, as values

  /** A record. `silent` says that its connection got an error status without the close callback being run, and
      `releases` counts pd_purge_connection. */
  datatype Rec = Rec(pending: bool, toPurge: bool, silent: bool, releases: nat)

  /** An entry of the tunnel's table: the record it points to, and whether its status is closed or an error. */
  datatype TunConn = TunConn(rec: nat, closed: bool)

  /** What a dump tells the app: its new connections, and those that were updated. */
  datatype Delivery = Delivery(added: seq<nat>, updated: seq<nat>)

  /** Records are named by their incr_id, in the order of their creation; of these the first `dumped` were delivered, in the
      dumps `shown`. */
  datatype State = State(recs: seq<Rec>, newQ: seq<nat>, updQ: seq<nat>, conns: seq<TunConn>, dumped: nat, shown: seq<Delivery>)

  predicate SizesOk(s: State) {
    && s.dumped <= |s.recs|
    && (forall i :: 0 <= i < |s.newQ| ==> s.newQ[i] < |s.recs|)
    && (forall i :: 0 <= i < |s.updQ| ==> s.updQ[i] < |s.recs|)
    && (forall k :: 0 <= k < |s.conns| ==> s.conns[k].rec < |s.recs|)
  }

  function SetRec(s: State, r: nat, x: Rec): State
    requires r < |s.recs|
  {
    s.(recs := s.recs[r := x])
  }

  /** notif_connection on the list of updates. */
  function Notify(s: State, r: nat): State
    requires r < |s.recs|
  {
    if s.recs[r].pending then s
    else SetRec(s.(updQ := s.updQ + [r]), r, s.recs[r].(pending := true))
  }

  /** handle_new_connection and the entry in the tunnel's table. */
  function Open(s: State): State {
    s.(recs := s.recs + [Rec(true, false, false, 0)], newQ := s.newQ + [|s.recs|], conns := s.conns + [TunConn(|s.recs|, false)])
  }

  /** connection_closed. */
  function Callback(s: State, r: nat): State
    requires r < |s.recs|
  {
    var s1 := Notify(s, r);
    SetRec(s1, r, s1.recs[r].(toPurge := true))
  }

  function MarkClosed(s: State, k: nat): State
    requires k < |s.conns|
  {
    s.(conns := s.conns[k := s.conns[k].(closed := true)])
  }

  /** zdtun_conn_close; when the client does not take the RST, the close is entered again before the status is set, and
      the callback runs twice. */
  function Close(s: State, k: nat, refused: bool): State
    requires SizesOk(s) && k < |s.conns|
  {
    var r := s.conns[k].rec;
    if s.conns[k].closed then s
    else if refused then MarkClosed(Callback(Callback(s, r), r), k)
    else MarkClosed(Callback(s, r), k)
  }

  /** An error status without the callback: no socket could be opened. */
  function FailSilently(s: State, k: nat): State
    requires SizesOk(s) && k < |s.conns|
  {
    var r := s.conns[k].rec;
    if s.conns[k].closed then s else MarkClosed(SetRec(s, r, s.recs[r].(silent := true)), k)
  }

  /** update_conn_status: a closed status marks the record. */
  function UpdateStatus(s: State, k: nat): State
    requires SizesOk(s) && k < |s.conns|
  {
    var r := s.conns[k].rec;
    if s.conns[k].closed then SetRec(s, r, s.recs[r].(toPurge := true)) else s
  }

  /** destroy_conn. */
  function Destroy(s: State, k: nat, refused: bool): State
    requires SizesOk(s) && k < |s.conns|
  {
    var s1 := Close(s, k, refused);
    s1.(conns := s.conns[..k] + s.conns[k + 1..])
  }

  /** The notifications of a queue are delivered. */
  function Unpend(recs: seq<Rec>, q: seq<nat>): (r: seq<Rec>)
    requires forall i :: 0 <= i < |q| ==> q[i] < |recs|
    ensures |r| == |recs|
  {
    seq(|recs|, i requires 0 <= i < |recs| => if i in q then recs[i].(pending := false) else recs[i])
  }

  /** sendConnectionsDump. */
  function Dump(s: State): State
    requires SizesOk(s)
  {
    s.(recs := Unpend(Unpend(s.recs, s.newQ), s.updQ), dumped := |s.recs|, shown := s.shown + [Delivery(s.newQ, s.updQ)])
  }

  /** conns_clear on a list that holds no record twice. */
  function Freed(recs: seq<Rec>, q: seq<nat>, freeAll: bool): (r: seq<Rec>)
    ensures |r| == |recs|
  {
    seq(|recs|, i requires 0 <= i < |recs| =>
      if i in q && (recs[i].toPurge || freeAll) then recs[i].(releases := recs[i].releases + 1) else recs[i])
  }

  function ClearBoth(s: State, freeAll: bool): State {
    s.(recs := Freed(Freed(s.recs, s.newQ, freeAll), s.updQ, freeAll), newQ := [], updQ := [])
  }

  /** The periodic dump of pd_housekeeping. */
  function Housekeep(s: State): State
    requires SizesOk(s)
  {
    if s.newQ == [] && s.updQ == [] then s else ClearBoth(Dump(s), false)
  }

  datatype Event = Opened | Updated(k: nat) | Accounted(k: nat) | Closed(k: nat, refused: bool) | Failed(k: nat) | Destroyed(k: nat, refused: bool)
                 | Dumped

  /** One event of a capture. Updates come from packets and iterations, which reach connections not closed, or closed
      since the last dump, so that their last notification is still pending: see LateNotification. The packets accounted
      reach only connections not closed, as the client accepts them only while the status is neither closed nor an error:
      that is the `live` of TcpDownstream.RunIsDown. */
  function Step(s: State, e: Event): State
    requires SizesOk(s)
  {
    match e
    case Opened => Open(s)
    case Updated(k) =>
      if k < |s.conns| && (!s.conns[k].closed || s.recs[s.conns[k].rec].pending) then Notify(s, s.conns[k].rec) else s
    case Accounted(k) => if k < |s.conns| && !s.conns[k].closed then UpdateStatus(s, k) else s
    case Closed(k, refused) => if k < |s.conns| then Close(s, k, refused) else s
    case Failed(k) => if k < |s.conns| then FailSilently(s, k) else s
    case Destroyed(k, refused) => if k < |s.conns| then Destroy(s, k, refused) else s
    case Dumped => Housekeep(s)
  }

  // ------------------------------------------------------------------ what every step keeps

  function Queued(s: State): seq<nat> {
    s.newQ + s.updQ
  }

  predicate NoRepeat(q: seq<nat>) {
    forall i, j :: 0 <= i < j < |q| ==> q[i] != q[j]
  }

  /** A record is in one of the two lists exactly while its notification is pending, and once in the two together. */
  predicate QueuedOnce(s: State) {
    && NoRepeat(Queued(s))
    && (forall r :: 0 <= r < |s.recs| ==> (s.recs[r].pending <==> r in Queued(s)))
  }

  /** A record is released at most once, after its close callback and after its last notification was delivered. */
  predicate ReleasedOnce(s: State) {
    forall r :: 0 <= r < |s.recs| ==>
      var x := s.recs[r];
      && x.releases <= 1
      && (x.releases == 1 ==> x.toPurge && !x.pending)
      && (x.toPurge && x.releases == 0 ==> x.pending)
      && (x.silent ==> !x.toPurge)
  }

  /** The record of a connection that can still be handed out is neither released nor marked. */
  predicate LiveKept(s: State)
    requires SizesOk(s)
  {
    && (forall k :: 0 <= k < |s.conns| && !s.conns[k].closed ==>
          var x := s.recs[s.conns[k].rec]; !x.toPurge && !x.silent && x.releases == 0)
    && (forall j, k :: 0 <= j < k < |s.conns| ==> s.conns[j].rec != s.conns[k].rec)
  }

  /** A record with neither mark belongs to a connection that is not closed. */
  predicate Owned(s: State) {
    forall r :: 0 <= r < |s.recs| && !s.recs[r].toPurge && !s.recs[r].silent ==>
      exists k :: 0 <= k < |s.conns| && s.conns[k] == TunConn(r, false)
  }

  /** The list of new connections holds the records created since the last dump, by consecutive ids. */
  predicate Consecutive(s: State) {
    |s.newQ| == |s.recs| - s.dumped && forall i :: 0 <= i < |s.newQ| ==> s.newQ[i] == s.dumped + i
  }

  predicate Inv(s: State)
    requires SizesOk(s)
  {
    QueuedOnce(s) && ReleasedOnce(s) && LiveKept(s) && Owned(s) && Consecutive(s)
  }

  lemma NotifyKeeps(s: State, r: nat)
    requires SizesOk(s) && Inv(s) && r < |s.recs| && s.recs[r].releases == 0
    ensures var s1 := Notify(s, r);
            SizesOk(s1) && Inv(s1) && s1.recs == s.recs[r := s.recs[r].(pending := true)] && s1.conns == s.conns
  {
    var s1 := Notify(s, r);
    if !s.recs[r].pending {
      QueueGrows(s.newQ, s.updQ, r);
      assert Queued(s1) == Queued(s) + [r];
    }
    OwnedStays(s, s1);
  }

  lemma QueueGrows(a: seq<nat>, b: seq<nat>, r: nat)
    requires NoRepeat(a + b) && r !in a + b
    ensures a + (b + [r]) == (a + b) + [r] && NoRepeat(a + (b + [r]))
    ensures forall x :: x in a + (b + [r]) <==> x in a + b || x == r
  {
    assert a + (b + [r]) == (a + b) + [r];
  }

  lemma OwnedStays(s: State, s1: State)
    requires SizesOk(s) && SizesOk(s1) && Owned(s) && s1.conns == s.conns && |s1.recs| == |s.recs|
    requires forall r :: 0 <= r < |s.recs| ==> (s.recs[r].toPurge ==> s1.recs[r].toPurge) && (s.recs[r].silent ==> s1.recs[r].silent)
    ensures Owned(s1)
  {
    forall r | 0 <= r < |s1.recs| && !s1.recs[r].toPurge && !s1.recs[r].silent
      ensures exists k :: 0 <= k < |s1.conns| && s1.conns[k] == TunConn(r, false)
    {
      var k :| 0 <= k < |s.conns| && s.conns[k] == TunConn(r, false);
      assert s1.conns[k] == TunConn(r, false);
    }
  }

  lemma OpenKeeps(s: State)
    requires SizesOk(s) && Inv(s)
    ensures SizesOk(Open(s)) && Inv(Open(s))
  {
    var s1 := Open(s);
    var n := |s.recs|;
    assert Queued(s1) == s.newQ + [n] + s.updQ;
    InsertNew(s.newQ, s.updQ, n);
    forall r | 0 <= r < |s1.recs|
      ensures s1.recs[r].pending <==> r in Queued(s1)
    {
      assert r in Queued(s1) <==> r in Queued(s) || r == n;
    }
    forall r | 0 <= r < |s1.recs| && !s1.recs[r].toPurge && !s1.recs[r].silent
      ensures exists k :: 0 <= k < |s1.conns| && s1.conns[k] == TunConn(r, false)
    {
      if r < n {
        var k :| 0 <= k < |s.conns| && s.conns[k] == TunConn(r, false);
        assert s1.conns[k] == TunConn(r, false);
      } else {
        assert s1.conns[|s.conns|] == TunConn(r, false);
      }
    }
  }

  lemma InsertNew(a: seq<nat>, b: seq<nat>, n: nat)
    requires NoRepeat(a + b) && forall i :: 0 <= i < |a + b| ==> (a + b)[i] < n
    ensures NoRepeat(a + [n] + b) && forall x :: x in a + [n] + b <==> x in a + b || x == n
  {
    var q, c := a + b, a + [n] + b;
    assert forall i :: 0 <= i < |c| ==> c[i] == if i < |a| then q[i] else if i == |a| then n else q[i - 1];
    forall i, j | 0 <= i < j < |c|
      ensures c[i] != c[j]
    {
      var i0, j0 := if i < |a| then i else i - 1, if j < |a| then j else j - 1;
      if i != |a| && j != |a| {
        assert q[i0] != q[j0];
      } else if i == |a| {
        assert q[j0] < n;
      } else {
        assert q[i0] < n;
      }
    }
    forall x
      ensures x in c <==> x in q || x == n
    {
      assert c[|a|] == n;
      if x in q {
        var i :| 0 <= i < |q| && q[i] == x;
        assert c[if i < |a| then i else i + 1] == x;
      }
    }
  }

  /** After the callback, once or twice, the record is marked and its last notification is pending. */
  lemma CallbackKeeps(s: State, k: nat, refused: bool)
    requires SizesOk(s) && Inv(s) && k < |s.conns| && !s.conns[k].closed
    ensures var s1 := Close(s, k, refused);
            && SizesOk(s1) && Inv(s1)
            && s1.recs == s.recs[s.conns[k].rec := Rec(true, true, false, 0)]
            && s1.conns == s.conns[k := TunConn(s.conns[k].rec, true)]
  {
    var r := s.conns[k].rec;
    NotifyKeeps(s, r);
    var s0 := Notify(s, r);
    var s1 := Close(s, k, refused);
    assert s1.recs == s.recs[r := Rec(true, true, false, 0)];
    assert s1.newQ == s0.newQ && s1.updQ == s0.updQ;
    OwnedButOne(s0, s1, k);
  }

  lemma OwnedButOne(s: State, s1: State, k: nat)
    requires SizesOk(s) && SizesOk(s1) && Owned(s) && k < |s.conns| && |s1.recs| == |s.recs|
    requires s1.conns == s.conns[k := TunConn(s.conns[k].rec, true)]
    requires forall r :: 0 <= r < |s.recs| && r != s.conns[k].rec ==> s1.recs[r] == s.recs[r]
    requires s1.recs[s.conns[k].rec].toPurge || s1.recs[s.conns[k].rec].silent
    ensures Owned(s1)
  {
    forall r | 0 <= r < |s1.recs| && !s1.recs[r].toPurge && !s1.recs[r].silent
      ensures exists j :: 0 <= j < |s1.conns| && s1.conns[j] == TunConn(r, false)
    {
      var j :| 0 <= j < |s.conns| && s.conns[j] == TunConn(r, false);
      assert s1.conns[j] == TunConn(r, false);
    }
  }

  lemma FailKeeps(s: State, k: nat)
    requires SizesOk(s) && Inv(s) && k < |s.conns|
    ensures SizesOk(FailSilently(s, k)) && Inv(FailSilently(s, k))
  {
    if !s.conns[k].closed {
      var s1 := FailSilently(s, k);
      OwnedButOne(s, s1, k);
    }
  }

  /** A closed entry can be dropped from the table. */
  lemma DropKeeps(s: State, k: nat)
    requires SizesOk(s) && Inv(s) && k < |s.conns| && s.conns[k].closed
    ensures var s1 := s.(conns := s.conns[..k] + s.conns[k + 1..]); SizesOk(s1) && Inv(s1)
  {
    var s1 := s.(conns := s.conns[..k] + s.conns[k + 1..]);
    assert forall j :: 0 <= j < |s1.conns| ==> s1.conns[j] == s.conns[if j < k then j else j + 1];
    hide QueuedOnce, ReleasedOnce;
    assert QueuedOnce(s1) by { SameQueues(s, s1); }
    assert ReleasedOnce(s1) by { SameQueues(s, s1); }
    forall r | 0 <= r < |s1.recs| && !s1.recs[r].toPurge && !s1.recs[r].silent
      ensures exists j :: 0 <= j < |s1.conns| && s1.conns[j] == TunConn(r, false)
    {
      var j :| 0 <= j < |s.conns| && s.conns[j] == TunConn(r, false);
      assert s1.conns[if j < k then j else j - 1] == TunConn(r, false);
    }
  }

  lemma SameQueues(s: State, s1: State)
    requires s1.recs == s.recs && s1.newQ == s.newQ && s1.updQ == s.updQ
    ensures QueuedOnce(s) ==> QueuedOnce(s1)
    ensures ReleasedOnce(s) ==> ReleasedOnce(s1)
  {
  }

  lemma CloseKeeps(s: State, k: nat, refused: bool)
    requires SizesOk(s) && Inv(s) && k < |s.conns|
    ensures var s1 := Close(s, k, refused);
            SizesOk(s1) && Inv(s1) && |s1.conns| == |s.conns| && s1.conns[k].closed
            && (forall j :: 0 <= j < |s.conns| && j != k ==> s1.conns[j] == s.conns[j])
  {
    hide Inv, Close;
    if s.conns[k].closed {
      CloseOfClosed(s, k, refused);
    } else {
      CallbackKeeps(s, k, refused);
    }
  }

  lemma CloseOfClosed(s: State, k: nat, refused: bool)
    requires SizesOk(s) && k < |s.conns| && s.conns[k].closed
    ensures Close(s, k, refused) == s
  {
  }

  lemma DestroyKeeps(s: State, k: nat, refused: bool)
    requires SizesOk(s) && Inv(s) && k < |s.conns|
    ensures SizesOk(Destroy(s, k, refused)) && Inv(Destroy(s, k, refused))
  {
    hide Inv, Close;
    CloseKeeps(s, k, refused);
    var s1 := Close(s, k, refused);
    DropKeeps(s1, k);
    assert s1.conns[..k] + s1.conns[k + 1..] == s.conns[..k] + s.conns[k + 1..];
  }

  /** What a dump and the two clears make of each record. */
  lemma AfterDump(s: State, freeAll: bool, r: nat)
    requires SizesOk(s) && QueuedOnce(s) && r < |s.recs|
    ensures var s1 := ClearBoth(Dump(s), freeAll);
            && |s1.recs| == |s.recs| && SizesOk(s1) && s1.conns == s.conns && s1.newQ == s1.updQ == [] && s1.dumped == |s.recs|
            && s1.recs[r] ==
               var x := s.recs[r];
               if x.pending then x.(pending := false, releases := x.releases + if x.toPurge || freeAll then 1 else 0) else x
  {
    if s.recs[r].pending {
      var i :| 0 <= i < |Queued(s)| && Queued(s)[i] == r;
      if i < |s.newQ| {
        assert s.newQ[i] == r;
        NotInOther(s, r);
      } else {
        assert s.updQ[i - |s.newQ|] == r;
        NotInOther(s, r);
      }
    } else {
      assert r !in s.newQ by { InEither(s, r); }
      assert r !in s.updQ by { InEither(s, r); }
    }
  }

  lemma InEither(s: State, r: nat)
    ensures r in s.newQ || r in s.updQ ==> r in Queued(s)
  {
  }

  lemma NotInOther(s: State, r: nat)
    requires NoRepeat(Queued(s))
    ensures !(r in s.newQ && r in s.updQ)
  {
    forall i, j | 0 <= i < |s.newQ| && 0 <= j < |s.updQ|
      ensures s.newQ[i] != s.updQ[j]
    {
      assert Queued(s)[i] == s.newQ[i] && Queued(s)[|s.newQ| + j] == s.updQ[j];
    }
  }

  /** `s1` is `s` after a dump: every pending record was delivered, and released if it was marked. */
  predicate DumpedTo(s: State, s1: State) {
    && |s1.recs| == |s.recs| && s1.conns == s.conns && s1.newQ == s1.updQ == [] && s1.dumped == |s.recs|
    && (forall r :: 0 <= r < |s.recs| ==>
          s1.recs[r] == var x := s.recs[r];
                        if x.pending then x.(pending := false, releases := x.releases + if x.toPurge then 1 else 0) else x)
  }

  lemma HousekeepDumps(s: State)
    requires SizesOk(s) && QueuedOnce(s) && (s.newQ != [] || s.updQ != [])
    ensures DumpedTo(s, Housekeep(s)) && SizesOk(Housekeep(s))
  {
    var s1 := Housekeep(s);
    assert |s1.recs| == |s.recs| && s1.conns == s.conns;
    forall r | 0 <= r < |s.recs|
      ensures s1.recs[r] == var x := s.recs[r];
                            if x.pending then x.(pending := false, releases := x.releases + if x.toPurge then 1 else 0) else x
    {
      AfterDump(s, false, r);
    }
  }

  lemma DumpedReleases(s: State, s1: State)
    requires ReleasedOnce(s) && DumpedTo(s, s1)
    ensures ReleasedOnce(s1) && QueuedOnce(s1)
  {
  }

  lemma DumpedLives(s: State, s1: State)
    requires SizesOk(s) && SizesOk(s1) && LiveKept(s) && DumpedTo(s, s1)
    ensures LiveKept(s1) && Consecutive(s1)
  {
  }

  lemma HousekeepKeeps(s: State)
    requires SizesOk(s) && Inv(s)
    ensures SizesOk(Housekeep(s)) && Inv(Housekeep(s))
  {
    if s.newQ != [] || s.updQ != [] {
      HousekeepDumps(s);
      var s1 := Housekeep(s);
      DumpedReleases(s, s1);
      DumpedLives(s, s1);
      hide Housekeep, QueuedOnce, ReleasedOnce, LiveKept, Consecutive;
      OwnedStays(s, s1);
    }
  }

  /** Accounting a packet leaves the records alone if and only if its connection is not closed, or was closed with the
      callback: one that failed without it would be marked with no notification pending. */
  lemma AccountingIsHarmless(s: State, k: nat)
    requires SizesOk(s) && Inv(s) && k < |s.conns|
    ensures UpdateStatus(s, k) == s <==> !s.conns[k].closed || s.recs[s.conns[k].rec].toPurge
  {
    hide Inv;
    var r := s.conns[k].rec;
    if s.conns[k].closed {
      assert UpdateStatus(s, k).recs[r].toPurge;
    }
  }

  lemma PendingIsKept(s: State, r: nat)
    requires ReleasedOnce(s) && r < |s.recs| && s.recs[r].pending
    ensures s.recs[r].releases == 0
  {
  }

  lemma StepKeeps(s: State, e: Event)
    requires SizesOk(s) && Inv(s)
    ensures SizesOk(Step(s, e)) && Inv(Step(s, e))
  {
    hide Open, Notify, Close, FailSilently, Destroy, Housekeep, QueuedOnce, Owned, Consecutive;
    match e
    case Opened => OpenKeeps(s);
    case Updated(k) =>
      if k < |s.conns| {
        var r := s.conns[k].rec;
        if s.recs[r].pending {
          PendingIsKept(s, r);
        }
        if !s.conns[k].closed || s.recs[r].pending {
          NotifyKeeps(s, r);
        }
      }
    case Accounted(k) =>
    case Closed(k, refused) => if k < |s.conns| { CloseKeeps(s, k, refused); }
    case Failed(k) => if k < |s.conns| { FailKeeps(s, k); }
    case Destroyed(k, refused) => if k < |s.conns| { DestroyKeeps(s, k, refused); }
    case Dumped => HousekeepKeeps(s);
  }

  // ------------------------------------------------------------------ runs

  function Run(events: seq<Event>): (s: State)
    ensures SizesOk(s) && Inv(s)
  {
    if events == [] then State([], [], [], [], 0, [])
    else
      var s := Run(events[..|events| - 1]);
      StepKeeps(s, events[|events| - 1]);
      Step(s, events[|events| - 1])
  }

  lemma RunStep(events: seq<Event>)
    requires events != []
    ensures Run(events) == Step(Run(events[..|events| - 1]), events[|events| - 1])
  {
    hide Step, Inv;
  }

  /** In every run each record is in one of the lists exactly while its notification is pending, once in the two
      together; it is released at most once, and only after its connection is closed; what a lookup or an iteration
      can hand out is not released. */
  lemma RecordIsSafe(events: seq<Event>)
    ensures var s := Run(events);
            && (forall i, j :: 0 <= i < j < |s.newQ + s.updQ| ==> (s.newQ + s.updQ)[i] != (s.newQ + s.updQ)[j])
            && forall r :: 0 <= r < |s.recs| ==>
                 var x := s.recs[r];
                 && (x.pending <==> r in s.newQ + s.updQ)
                 && x.releases <= 1
                 && (x.releases > 0 ==> forall k :: 0 <= k < |s.conns| && s.conns[k].rec == r ==> s.conns[k].closed)
  {
    var s := Run(events);
    assert Queued(s) == s.newQ + s.updQ;
  }

  /** A pending notification stays pending until the next dump. */
  lemma PendingUntilDump(s: State, e: Event, r: nat)
    requires SizesOk(s) && Inv(s) && e != Dumped && r < |s.recs| && s.recs[r].pending
    ensures r < |Step(s, e).recs| && Step(s, e).recs[r].pending
  {
    hide Inv;
    if e.Destroyed? && e.k < |s.conns| {
      assert Destroy(s, e.k, e.refused).recs == Close(s, e.k, e.refused).recs;
    }
  }

  lemma {:induction false} PendingInRound(events: seq<Event>, more: seq<Event>, r: nat)
    requires r < |Run(events).recs| && Run(events).recs[r].pending && Dumped !in more
    ensures r < |Run(events + more).recs| && Run(events + more).recs[r].pending
  {
    if more == [] {
      assert events + more == events;
    } else {
      var n, all := |more| - 1, events + more;
      assert all[..|all| - 1] == events + more[..n] && all[|all| - 1] == more[n];
      hide *;
      PendingInRound(events, more[..n], r);
      RunStep(all);
      PendingUntilDump(Run(events + more[..n]), more[n], r);
    }
  }

  /** From the close of a connection until the next dump, whatever happens in between, its last notification is pending and
      a further one adds nothing: so do those that the capture loop sends on a connection closed in the same round. */
  lemma LateNotification(events: seq<Event>, k: nat, refused: bool, more: seq<Event>)
    requires k < |Run(events).conns| && !Run(events).conns[k].closed && Dumped !in more
    ensures var r, s := Run(events).conns[k].rec, Run(events + [Closed(k, refused)] + more);
            r < |s.recs| && s.recs[r].pending && s.recs[r].releases == 0 && Notify(s, r) == s
  {
    var s := Run(events);
    var r := s.conns[k].rec;
    var closing := events + [Closed(k, refused)];
    assert closing[..|closing| - 1] == events;
    RunStep(closing);
    hide Close, Run, Step, Inv;
    NotifiedIsPending(s, Closed(k, refused), r);
    PendingInRound(closing, more, r);
    NothingMoreToNotify(Run(closing + more), r);
  }

  lemma NothingMoreToNotify(s: State, r: nat)
    requires SizesOk(s) && Inv(s) && r < |s.recs| && s.recs[r].pending
    ensures s.recs[r].releases == 0 && Notify(s, r) == s
  {
    PendingIsKept(s, r);
  }

  /** A dump releases exactly the records that wait for it: those whose close callback ran since the last one. */
  lemma DumpReleases(s: State, r: nat)
    requires SizesOk(s) && Inv(s) && r < |s.recs|
    ensures Housekeep(s).recs[r].releases == (if s.recs[r].toPurge then 1 else 0)
    ensures Housekeep(s).recs[r].releases > s.recs[r].releases <==> s.recs[r].toPurge && s.recs[r].pending
  {
    AfterDump(s, false, r);
    if s.newQ == [] && s.updQ == [] {
      assert Queued(s) == [];
      assert !s.recs[r].pending;
    }
  }

  /** The new connections of a dump have consecutive ids that go on where the dump before stopped. */
  lemma DumpsContinueIds(s: State)
    requires SizesOk(s) && Inv(s)
    ensures forall i :: 0 <= i < |s.newQ| ==> s.newQ[i] == s.dumped + i
    ensures Housekeep(s).dumped == s.dumped + |s.newQ|
  {
    hide QueuedOnce, ReleasedOnce, LiveKept, Owned;
  }

  // ------------------------------------------------------------------ what the app is told

  /** The new connections of a list of dumps. */
  function FreshOf(shown: seq<Delivery>): seq<nat> {
    if shown == [] then [] else FreshOf(shown[..|shown| - 1]) + shown[|shown| - 1].added
  }

  /** 0, 1, .. up to `n`. */
  function UpTo(n: nat): seq<nat> {
    seq(n, i => i)
  }

  /** The event notifies of the record of entry `k`: it is new, has an update, or is closed. */
  predicate Notifies(s: State, e: Event, r: nat) {
    match e
    case Opened => r == |s.recs|
    case Updated(k) => k < |s.conns| && !s.conns[k].closed && s.conns[k].rec == r
    case Closed(k, _) => k < |s.conns| && !s.conns[k].closed && s.conns[k].rec == r
    case Destroyed(k, _) => k < |s.conns| && !s.conns[k].closed && s.conns[k].rec == r
    case _ => false
  }

  lemma NotifiedIsPending(s: State, e: Event, r: nat)
    requires SizesOk(s) && Inv(s) && Notifies(s, e, r)
    ensures r < |Step(s, e).recs| && Step(s, e).recs[r].pending
  {
    hide Inv;
    match e
    case Opened =>
    case Updated(k) =>
    case Closed(k, refused) => CallbackKeeps(s, k, refused);
    case Destroyed(k, refused) =>
      CallbackKeeps(s, k, refused);
      assert Destroy(s, k, refused).recs == Close(s, k, refused).recs;
  }

  /** What a dump tells, if there is anything to tell. */
  lemma DumpTells(s: State)
    requires SizesOk(s)
    ensures Step(s, Dumped).shown == if s.newQ == [] && s.updQ == [] then s.shown else s.shown + [Delivery(s.newQ, s.updQ)]
  {
  }

  lemma TellsOnlyInDumps(s: State, e: Event)
    requires SizesOk(s) && e != Dumped
    ensures Step(s, e).shown == s.shown && Step(s, e).dumped == s.dumped && |s.recs| <= |Step(s, e).recs|
  {
  }

  /** Whatever is notified is told by the next dump: of a connection not told before as a new one, otherwise as an update. */
  lemma NotificationArrives(events: seq<Event>, e: Event, more: seq<Event>, r: nat)
    requires Notifies(Run(events), e, r) && Dumped !in more
    ensures var s, t := Run(events + [e] + more), Run(events + [e] + more + [Dumped]);
            && |t.shown| == |s.shown| + 1 && t.shown[..|s.shown|] == s.shown
            && var d := t.shown[|s.shown|];
               if r < s.dumped then r in d.updated && r !in d.added else r in d.added && r !in d.updated
  {
    var one, all := events + [e], events + [e] + more;
    assert one[..|one| - 1] == events && (all + [Dumped])[..|all + [Dumped]| - 1] == all;
    RunStep(one);
    RunStep(all + [Dumped]);
    var s := Run(all);
    hide Run, Step;
    NotifiedIsPending(Run(events), e, r);
    PendingInRound(one, more, r);
    DumpTells(s);
    InOneList(s, r);
  }

  lemma InOneList(s: State, r: nat)
    requires SizesOk(s) && Inv(s) && r < |s.recs| && s.recs[r].pending
    ensures if r < s.dumped then r in s.updQ && r !in s.newQ else r in s.newQ && r !in s.updQ
  {
    assert r in Queued(s);
    NotInOther(s, r);
    if r >= s.dumped {
      assert s.newQ[r - s.dumped] == r;
    }
  }

  /** In every run the dumps tell of the connections as new ones in the order of their ids, each once. */
  lemma {:induction false} ToldInOrder(events: seq<Event>)
    ensures var s := Run(events); FreshOf(s.shown) == UpTo(s.dumped) && FreshOf(s.shown) + s.newQ == UpTo(|s.recs|)
  {
    var s := Run(events);
    if events != [] {
      var before, e := events[..|events| - 1], events[|events| - 1];
      ToldInOrder(before);
      RunStep(events);
      var s0 := Run(before);
      NewAreNext(s0);
      hide Run;
      if e == Dumped {
        DumpTells(s0);
        assert (s0.shown + [Delivery(s0.newQ, s0.updQ)])[..|s0.shown|] == s0.shown;
        assert UpTo(s0.dumped) + s0.newQ == UpTo(|s0.recs|);
      } else {
        TellsOnlyInDumps(s0, e);
      }
    }
    NewAreNext(s);
  }

  lemma NewAreNext(s: State)
    requires SizesOk(s) && Inv(s)
    ensures UpTo(s.dumped) + s.newQ == UpTo(|s.recs|)
  {
    hide QueuedOnce, ReleasedOnce, LiveKept, Owned;
  }

  // ------------------------------------------------------------------ the end of the capture

  /** zdtun_finalize; `refused(n)` says whether the client refuses the RST for the connection destroyed when `n` are left.
      After a failed select() the capture is still marked as running, and it may. */
  function DestroyAll(s: State, refused: nat -> bool): (s1: State)
    requires SizesOk(s) && Inv(s)
    ensures SizesOk(s1) && Inv(s1) && s1.conns == []
    decreases |s.conns|
  {
    if s.conns == [] then s
    else
      DestroyKeeps(s, 0, refused(|s.conns|));
      ShorterTable(s, refused(|s.conns|));
      DestroyAll(Destroy(s, 0, refused(|s.conns|)), refused)
  }

  lemma ShorterTable(s: State, refused: bool)
    requires SizesOk(s) && Inv(s) && s.conns != []
    ensures |Destroy(s, 0, refused).conns| == |s.conns| - 1
  {
    hide Inv;
  }

  /** zdtun_finalize, the last dump, and the lists cleared for good. */
  function Shutdown(s: State, refused: nat -> bool): State
    requires SizesOk(s) && Inv(s)
  {
    ClearBoth(Dump(DestroyAll(s, refused)), true)
  }

  /** What destroying every connection makes of record `r`: the callback runs if it never did, unless the connection
      failed silently. */
  lemma {:induction false} DestroyAllMarks(s: State, refused: nat -> bool, r: nat)
    requires SizesOk(s) && Inv(s) && r < |s.recs|
    ensures var s1 := DestroyAll(s, refused);
            |s1.recs| == |s.recs| &&
            s1.recs[r] == if s.recs[r].toPurge || s.recs[r].silent then s.recs[r] else Rec(true, true, false, 0)
    decreases |s.conns|
  {
    if s.conns == [] {
      assert s.recs[r].toPurge || s.recs[r].silent;
    } else {
      DestroyKeeps(s, 0, refused(|s.conns|));
      ShorterTable(s, refused(|s.conns|));
      DestroyMarks(s, refused(|s.conns|), r);
      DestroyAllMarks(Destroy(s, 0, refused(|s.conns|)), refused, r);
    }
  }

  lemma DestroyMarks(s: State, refused: bool, r: nat)
    requires SizesOk(s) && Inv(s) && r < |s.recs| && s.conns != []
    ensures var s1 := Destroy(s, 0, refused);
            |s1.recs| == |s.recs| && (s1.recs[r] == s.recs[r] || (s1.recs[r] == Rec(true, true, false, 0) && !s.recs[r].toPurge && !s.recs[r].silent))
  {
    if !s.conns[0].closed {
      CallbackKeeps(s, 0, refused);
    }
  }

  /** After shutdown every record has been released exactly once, except those whose connection failed without the
      close callback and whose notification had been delivered before: nothing releases these. */
  lemma ReleasedAtTheEnd(s: State, refused: nat -> bool, r: nat)
    requires SizesOk(s) && Inv(s) && r < |s.recs|
    ensures var s1 := Shutdown(s, refused);
            && |s1.recs| == |s.recs| && s1.recs[r].releases <= 1
            && (s1.recs[r].releases == 1 <==> !(s.recs[r].silent && !s.recs[r].pending))
  {
    DestroyAllMarks(s, refused, r);
    AfterDump(DestroyAll(s, refused), true, r);
    hide DestroyAll, Dump, ClearBoth;
  }

  // ------------------------------------------------------------------ the records in memory

  /** pd_conn_t: the fields its lifetime depends on. */
  class PdConn {
    const incrId: nat
    var pending: bool
    var toPurge: bool
    ghost var silent: bool
    ghost var releases: nat

    constructor (id: nat)
      ensures incrId == id && !pending && !toPurge && !silent && releases == 0
    {
      incrId, pending, toPurge, silent, releases := id, false, false, false, 0;
    }

    ghost function AsRec(): Rec
      reads this
    {
      Rec(pending, toPurge, silent, releases)
    }
  }

  /** An entry of the tunnel's table. */
  class TunnelConn {
    const data: PdConn
    var closed: bool

    constructor (data: PdConn)
      ensures this.data == data && !closed
    {
      this.data, closed := data, false;
    }

    ghost function AsConn(): TunConn
      reads this
    {
      TunConn(data.incrId, closed)
    }
  }

  ghost function RecsOf(a: seq<PdConn>): (r: seq<Rec>)
    reads a
    ensures |r| == |a| && forall i :: 0 <= i < |a| ==> r[i] == a[i].AsRec()
  {
    if a == [] then [] else RecsOf(a[..|a| - 1]) + [a[|a| - 1].AsRec()]
  }

  function IdsOf(a: seq<PdConn>): (r: seq<nat>)
    ensures |r| == |a| && forall i :: 0 <= i < |a| ==> r[i] == a[i].incrId
  {
    seq(|a|, i requires 0 <= i < |a| => a[i].incrId)
  }

  ghost function ConnsOf(a: seq<TunnelConn>): (r: seq<TunConn>)
    reads a
    ensures |r| == |a| && forall i :: 0 <= i < |a| ==> r[i] == a[i].AsConn()
  {
    if a == [] then [] else ConnsOf(a[..|a| - 1]) + [a[|a| - 1].AsConn()]
  }

  class Relay {
    var newConns: seq<PdConn>
    var connsUpdates: seq<PdConn>
    var newConnId: nat
    var conns: seq<TunnelConn>
    ghost var all: seq<PdConn> // every record ever created, released or not
    ghost var dumped: nat
    var shown: seq<Delivery> // what the app was told

    ghost function View(): State
      reads this, all, conns
    {
      State(RecsOf(all), IdsOf(newConns), IdsOf(connsUpdates), ConnsOf(conns), dumped, shown)
    }

    /** A record is the one its id names. */
    ghost predicate Known(d: PdConn)
      reads `all
    {
      d.incrId < |all| && all[d.incrId] == d
    }

    ghost predicate Named()
      reads this
    {
      && newConnId == |all| && dumped <= |all|
      && (forall i :: 0 <= i < |all| ==> all[i].incrId == i)
      && (forall i :: 0 <= i < |newConns| ==> Known(newConns[i]))
      && (forall i :: 0 <= i < |connsUpdates| ==> Known(connsUpdates[i]))
      && (forall k :: 0 <= k < |conns| ==> Known(conns[k].data))
      && (forall j, k :: 0 <= j < k < |conns| ==> conns[j] != conns[k])
    }

    ghost predicate Valid()
      reads this, all, conns
    {
      Named() && SizesOk(View()) && Inv(View())
    }

    constructor ()
      ensures Valid() && View() == State([], [], [], [], 0, [])
    {
      newConns, connsUpdates, newConnId, conns, all, dumped, shown := [], [], 0, [], [], 0, [];
    }

    /** One record changed. */
    lemma OneRecord(before: seq<Rec>, d: PdConn)
      requires Known(d) && |before| == |all| && (forall i :: 0 <= i < |all| ==> all[i].incrId == i)
      requires forall i :: 0 <= i < |all| && i != d.incrId ==> all[i].AsRec() == before[i]
      ensures RecsOf(all) == before[d.incrId := d.AsRec()]
    {
      hide RecsOf;
    }

    /** notif_connection on conns_updates. The record must not have been released. */
    method NotifyUpdate(data: PdConn)
      requires Named() && Known(data) && data.releases == 0
      modifies `connsUpdates, data`pending
      ensures Named() && View() == Notify(old(View()), data.incrId)
      ensures data.releases == 0
    {
      hide RecsOf, ConnsOf, IdsOf;
      ghost var recs := RecsOf(all);
      if !data.pending {
        connsUpdates := connsUpdates + [data];
        data.pending := true;
      }
      OneRecord(recs, data);
      assert RecsOf(all) == if recs[data.incrId].pending then recs else recs[data.incrId := recs[data.incrId].(pending := true)];
    }

    /** handle_new_connection and pd_new_connection: a new record, queued at once, with the next id. */
    method NewConnection() returns (c: TunnelConn)
      requires Valid()
      modifies this
      ensures Valid() && View() == Open(old(View())) && fresh(c) && fresh(c.data) && c in conns
    {
      hide *;
      ValidParts();
      OpenKeeps(View());
      var data := new PdConn(newConnId);
      data.pending := true;
      c := new TunnelConn(data);
      Enter(c);
      ValidFromParts();
    }

    lemma ValidParts()
      requires Valid()
      ensures Named() && SizesOk(View()) && Inv(View())
    {
      hide RecsOf, ConnsOf, IdsOf, Inv;
    }

    lemma ValidFromParts()
      requires Named() && SizesOk(View()) && Inv(View())
      ensures Valid()
    {
      hide RecsOf, ConnsOf, IdsOf, Inv, Named;
    }

    /** The new record enters the list, and its connection the table. */
    method Enter(c: TunnelConn)
      requires Named() && c !in conns && c.data !in all && c.data.incrId == newConnId
      requires !c.closed && c.data.pending && !c.data.toPurge && !c.data.silent && c.data.releases == 0
      modifies this
      ensures Named() && View() == Open(old(View())) && c in conns
    {
      hide RecsOf, ConnsOf, IdsOf, Inv;
      Appended(all, newConns, conns, c);
      newConns := newConns + [c.data];
      newConnId := newConnId + 1;
      conns := conns + [c];
      all := all + [c.data];
    }

    /** connection_closed: the last notification, and the mark that lets the next dump release the record. */
    method ConnectionClosed(data: PdConn)
      requires Named() && Known(data) && data.releases == 0
      modifies `connsUpdates, data`pending, data`toPurge
      ensures Named() && View() == Callback(old(View()), data.incrId)
      ensures data.releases == 0
    {
      hide RecsOf, ConnsOf, IdsOf;
      NotifyUpdate(data);
      ghost var recs := RecsOf(all);
      data.toPurge := true;
      OneRecord(recs, data);
    }

    /** A packet or an iteration reached a connection that is not closed. */
    method Update(c: TunnelConn)
      requires Valid() && c in conns && (!c.closed || c.data.pending)
      modifies `connsUpdates, c.data`pending
      ensures Valid() && View() == Notify(old(View()), c.data.incrId)
    {
      hide RecsOf, ConnsOf, IdsOf, Inv;
      ghost var k :| 0 <= k < |conns| && conns[k] == c;
      if c.closed {
        PendingRecord(k);
      } else {
        LiveRecord(k);
      }
      NotifyKeeps(View(), c.data.incrId);
      NotifyUpdate(c.data);
    }

    /** The record of a connection that is not closed is still there. */
    lemma PendingRecord(k: nat)
      requires Valid() && k < |conns| && conns[k].data.pending
      ensures Known(conns[k].data) && conns[k].data.releases == 0
      ensures View().recs[conns[k].data.incrId] == conns[k].data.AsRec()
    {
      hide RecsOf, ConnsOf, IdsOf, QueuedOnce, LiveKept, Owned, Consecutive;
      assert View().recs[conns[k].data.incrId] == conns[k].data.AsRec();
      PendingIsKept(View(), conns[k].data.incrId);
    }

    lemma LiveRecord(k: nat)
      requires Valid() && k < |conns| && !conns[k].closed
      ensures Known(conns[k].data) && conns[k].data.releases == 0 && !conns[k].data.toPurge
      ensures View().recs[conns[k].data.incrId] == conns[k].data.AsRec()
    {
      hide RecsOf, ConnsOf, IdsOf, Inv;
      var s := View();
      LiveIsKept(s, k);
      assert s.conns[k] == conns[k].AsConn() && s.recs[conns[k].data.incrId] == conns[k].data.AsRec();
    }

    /** zdtun_conn_close. When the client does not take the RST the close is entered again before the status is set, so
        the callback finds the same record twice. */
    method ConnClose(c: TunnelConn, ghost k: nat, refused: bool)
      requires Valid() && k < |conns| && conns[k] == c
      modifies `connsUpdates, c`closed, c.data`pending, c.data`toPurge
      ensures Valid() && View() == Close(old(View()), k, refused)
    {
      hide *;
      ValidParts();
      KnownAt(k);
      CloseKeeps(View(), k, refused);
      CloseCases(View(), k, refused);
      if !c.closed {
        LiveRecord(k);
        if refused {
          ConnectionClosed(c.data);
        }
        ConnectionClosed(c.data);
        SetClosed(c, k);
      }
      ValidFromParts();
    }

    lemma KnownAt(k: nat)
      requires Named() && k < |conns|
      ensures Known(conns[k].data) && View().conns[k] == TunConn(conns[k].data.incrId, conns[k].closed)
      ensures |View().conns| == |conns|
    {
      hide RecsOf, ConnsOf, IdsOf;
    }

    method SetClosed(c: TunnelConn, ghost k: nat)
      requires Named() && k < |conns| && conns[k] == c
      modifies c`closed
      ensures Named() && View() == MarkClosed(old(View()), k) && c.closed
    {
      hide RecsOf, ConnsOf, IdsOf;
      ghost var cs := ConnsOf(conns);
      c.closed := true;
      assert ConnsOf(conns) == cs[k := cs[k].(closed := true)];
    }

    /** update_conn_status, on a record that was not released. */
    method UpdateConnStatus(c: TunnelConn, ghost k: nat)
      requires Named() && SizesOk(View()) && k < |conns| && conns[k] == c && c.data.releases == 0
      modifies c.data`toPurge
      ensures Named() && k < |old(View()).conns| && View() == UpdateStatus(old(View()), k)
    {
      hide RecsOf, ConnsOf, IdsOf;
      ghost var recs := RecsOf(all);
      KnownAt(k);
      if c.closed {
        c.data.toPurge := true;
      }
      OneRecord(recs, c.data);
      assert recs[c.data.incrId] == old(c.data.AsRec());
    }

    /** No socket could be opened: an error status, and no callback. */
    method Fail(c: TunnelConn, ghost k: nat)
      requires Valid() && k < |conns| && conns[k] == c
      modifies c`closed, c.data`silent
      ensures Valid() && View() == FailSilently(old(View()), k)
    {
      hide *;
      ValidParts();
      KnownAt(k);
      FailKeeps(View(), k);
      FailCases(View(), k);
      if !c.closed {
        SetSilent(c.data);
        SetClosed(c, k);
      }
      ValidFromParts();
    }

    ghost method SetSilent(d: PdConn)
      requires Named() && Known(d)
      modifies d`silent
      ensures Named() && d.incrId < |old(View()).recs|
      ensures View() == SetRec(old(View()), d.incrId, old(View()).recs[d.incrId].(silent := true))
    {
      hide RecsOf, ConnsOf, IdsOf;
      ghost var recs := RecsOf(all);
      d.silent := true;
      OneRecord(recs, d);
    }

    /** destroy_conn: what is closed already keeps its record as it is, even if it was released since. */
    method DestroyConn(c: TunnelConn, k: nat, refused: bool)
      requires Valid() && k < |conns| && conns[k] == c
      modifies `connsUpdates, `conns, c`closed, c.data`pending, c.data`toPurge
      ensures Valid() && View() == Destroy(old(View()), k, refused)
      ensures conns == old(conns)[..k] + old(conns)[k + 1..]
    {
      hide *;
      ValidParts();
      KnownAt(k);
      DestroyKeeps(View(), k, refused);
      ghost var s := View();
      ConnClose(c, k, refused);
      ValidParts();
      Drop(k);
      DestroyCases(s, k, refused);
      ValidFromParts();
    }

    method Drop(k: nat)
      requires Named() && k < |conns|
      modifies `conns
      ensures Named() && k < |old(View()).conns| && conns == old(conns)[..k] + old(conns)[k + 1..]
      ensures View() == old(View()).(conns := old(View()).conns[..k] + old(View()).conns[k + 1..])
    {
      hide RecsOf, ConnsOf, IdsOf;
      ghost var cs := ConnsOf(conns);
      conns := conns[..k] + conns[k + 1..];
      assert ConnsOf(conns) == cs[..k] + cs[k + 1..];
    }

    // ---------------------------------------------------------------- dumps

    /** The records of a list are known, and none has been released. */
    ghost predicate Intact(q: seq<PdConn>)
      reads `all, q`releases
    {
      forall i :: 0 <= i < |q| ==> Known(q[i]) && q[i].releases == 0
    }

    /** A loop of sendConnectionsDump. No record in the list has been released. */
    method Deliver(q: seq<PdConn>)
      requires Named() && Intact(q)
      modifies all`pending
      ensures Named() && (forall i :: 0 <= i < |IdsOf(q)| ==> IdsOf(q)[i] < |old(View()).recs|)
      ensures View() == old(View()).(recs := Unpend(old(View()).recs, IdsOf(q)))
    {
      hide RecsOf, ConnsOf, Unpend;
      ghost var recs, ids := RecsOf(all), IdsOf(q);
      UnpendNone(recs);
      var i := 0;
      while i < |q|
        invariant Named() && i <= |q|
        invariant RecsOf(all) == Unpend(recs, ids[..i])
      {
        ghost var before := RecsOf(all);
        assert all[q[i].incrId] == q[i];
        q[i].pending := false;
        OneRecord(before, q[i]);
        UnpendStep(recs, ids, i);
        i := i + 1;
      }
      assert ids[..i] == ids;
    }

    /** sendConnectionsDump. */
    method SendConnectionsDump()
      requires Valid()
      modifies all`pending, `dumped, `shown
      ensures Named() && View() == Dump(old(View()))
    {
      hide *;
      ValidParts();
      QueuesUnreleased();
      DumpCases(View());
      Lists();
      Deliver(newConns);
      Deliver(connsUpdates);
      Tell();
      SetDumped();
    }

    /** The app is told of the connections in the two lists. */
    method Tell()
      requires Named()
      modifies `shown
      ensures Named() && View() == old(View()).(shown := old(View()).shown + [Delivery(old(View()).newQ, old(View()).updQ)])
    {
      hide RecsOf, ConnsOf, IdsOf;
      shown := shown + [Delivery(IdsOf(newConns), IdsOf(connsUpdates))];
    }

    ghost method SetDumped()
      requires Named()
      modifies `dumped
      ensures Named() && View() == old(View()).(dumped := |old(View()).recs|)
    {
      hide RecsOf, ConnsOf, IdsOf;
      dumped := |all|;
    }

    /** Nothing in the lists has been released. */
    lemma QueuesUnreleased()
      requires Named() && SizesOk(View()) && Inv(View())
      ensures Intact(newConns) && Intact(connsUpdates)
      ensures NoRepeat(IdsOf(newConns)) && NoRepeat(IdsOf(connsUpdates))
    {
      hide RecsOf, ConnsOf, Inv;
      var s := View();
      assert s.newQ == IdsOf(newConns) && s.updQ == IdsOf(connsUpdates);
      QueuedUnreleased(s);
      assert forall i :: 0 <= i < |newConns| ==> s.newQ[i] == newConns[i].incrId && s.recs[newConns[i].incrId] == newConns[i].AsRec();
      assert forall i :: 0 <= i < |connsUpdates| ==>
               s.updQ[i] == connsUpdates[i].incrId && s.recs[connsUpdates[i].incrId] == connsUpdates[i].AsRec();
    }

    /** pd_purge_connection. */
    ghost method Release(d: PdConn)
      requires Named() && Known(d) && d.releases == 0
      modifies d`releases
      ensures Named() && d.releases == 1 && d.incrId < |old(RecsOf(all))|
      ensures RecsOf(all) == old(RecsOf(all))[d.incrId := old(d.AsRec()).(releases := 1)]
    {
      hide RecsOf, ConnsOf, IdsOf;
      ghost var recs := RecsOf(all);
      d.releases := 1;
      OneRecord(recs, d);
    }

    /** conns_clear: every record read here is still there, and none is released twice. */
    method ConnsClear(q: seq<PdConn>, freeAll: bool, ghost spared: seq<PdConn>)
      requires Named() && NoRepeat(IdsOf(q)) && Intact(q)
      requires Intact(spared) && forall i, j :: 0 <= i < |q| && 0 <= j < |spared| ==> q[i] != spared[j]
      modifies all`releases
      ensures Named() && View() == old(View()).(recs := Freed(old(View()).recs, IdsOf(q), freeAll))
      ensures Intact(spared)
    {
      hide RecsOf, ConnsOf, Freed;
      ghost var recs, ids := RecsOf(all), IdsOf(q);
      FreedNone(recs, freeAll);
      var i := 0;
      while i < |q|
        invariant Named() && i <= |q|
        invariant RecsOf(all) == Freed(recs, ids[..i], freeAll)
        invariant forall j :: i <= j < |q| ==> q[j].releases == 0
        invariant Intact(spared)
      {
        assert all[q[i].incrId] == q[i];
        FreedStep(recs, ids, i, freeAll);
        assert forall j :: i < j < |q| ==> q[j] != q[i] by {
          assert forall j :: i < j < |q| ==> ids[j] != ids[i];
        }
        assert RecsOf(all)[q[i].incrId] == q[i].AsRec();
        if q[i].toPurge || freeAll {
          Release(q[i]);
        }
        i := i + 1;
      }
      assert ids[..i] == ids;
    }

    /** The two calls of conns_clear after a dump. */
    method ClearLists(freeAll: bool)
      requires Named() && Intact(newConns) && Intact(connsUpdates)
      requires NoRepeat(IdsOf(newConns) + IdsOf(connsUpdates))
      modifies `newConns, `connsUpdates, all`releases
      ensures Named() && View() == ClearBoth(old(View()), freeAll)
    {
      hide *;
      ApartLists(newConns, connsUpdates);
      NothingIntact();
      ClearCases(View(), freeAll);
      Lists();
      ConnsClear(newConns, freeAll, connsUpdates);
      ConnsClear(connsUpdates, freeAll, []);
      Emptied();
    }

    lemma NothingIntact()
      ensures Intact([])
    {
    }

    /** The arrays are freed. */
    method Emptied()
      requires Named()
      modifies `newConns, `connsUpdates
      ensures Named() && View() == old(View()).(newQ := [], updQ := [])
    {
      hide RecsOf, ConnsOf;
      newConns := [];
      connsUpdates := [];
    }

    /** The periodic dump of pd_housekeeping. */
    method Housekeeping()
      requires Valid()
      modifies `newConns, `connsUpdates, `dumped, `shown, all`pending, all`releases
      ensures Valid() && View() == Housekeep(old(View()))
    {
      hide *;
      ValidParts();
      HousekeepKeeps(View());
      HousekeepCases(View());
      Lists();
      if newConns != [] || connsUpdates != [] {
        DumpAndClear(false);
      }
      ValidFromParts();
    }

    lemma Lists()
      ensures View().newQ == IdsOf(newConns) && View().updQ == IdsOf(connsUpdates)
      ensures |IdsOf(newConns)| == |newConns| && |IdsOf(connsUpdates)| == |connsUpdates|
    {
      hide RecsOf, ConnsOf, IdsOf;
    }

    method DumpAndClear(freeAll: bool)
      requires Valid()
      modifies `newConns, `connsUpdates, `dumped, `shown, all`pending, all`releases
      ensures Named() && View() == ClearBoth(Dump(old(View())), freeAll)
    {
      hide *;
      ValidParts();
      QueuesUnreleased();
      QueuesApart();
      SendConnectionsDump();
      ClearLists(freeAll);
    }

    lemma QueuesApart()
      requires Named() && SizesOk(View()) && Inv(View())
      ensures NoRepeat(IdsOf(newConns) + IdsOf(connsUpdates))
    {
      hide RecsOf, ConnsOf, IdsOf, ReleasedOnce, LiveKept, Owned, Consecutive;
    }

    /** The end of a capture: zdtun_finalize, the last dump, and the lists cleared for good. */
    method Finish(refused: nat -> bool)
      requires Valid()
      modifies this, all, conns
      ensures Named() && View() == Shutdown(old(View()), refused)
    {
      hide *;
      ValidParts();
      ShutdownCases(View(), refused);
      ghost var s := View();
      DestroyEvery(refused);
      DumpAndClear(true);
    }

    method DestroyEvery(refused: nat -> bool)
      requires Valid()
      modifies `connsUpdates, `conns, conns`closed, all`pending, all`toPurge
      ensures Valid() && View() == DestroyAll(old(View()), refused) && all == old(all)
      decreases |conns|
    {
      hide *;
      ValidParts();
      DestroyAllCases(View(), refused);
      TableLength();
      if conns != [] {
        KnownAt(0);
        InAll(conns[0].data);
        ghost var cs := conns;
        DestroyConn(conns[0], 0, refused(|conns|));
        ValidParts();
        TableLength();
        assert forall i :: 0 <= i < |conns| ==> conns[i] in cs;
        DestroyEvery(refused);
      }
    }

    lemma TableLength()
      ensures |View().conns| == |conns|
    {
      hide RecsOf, ConnsOf, IdsOf;
    }

    lemma InAll(d: PdConn)
      requires Known(d)
      ensures d in all
    {
    }
  }

  lemma CloseCases(s: State, k: nat, refused: bool)
    requires SizesOk(s) && k < |s.conns|
    ensures var r := s.conns[k].rec;
            Close(s, k, refused) == if s.conns[k].closed then s
                                    else MarkClosed(Callback(if refused then Callback(s, r) else s, r), k)
  {
    hide Callback, MarkClosed;
  }

  lemma FailCases(s: State, k: nat)
    requires SizesOk(s) && k < |s.conns|
    ensures var r := s.conns[k].rec;
            FailSilently(s, k) == if s.conns[k].closed then s else MarkClosed(SetRec(s, r, s.recs[r].(silent := true)), k)
  {
    hide SetRec, MarkClosed;
  }

  lemma DestroyCases(s: State, k: nat, refused: bool)
    requires SizesOk(s) && Inv(s) && k < |s.conns|
    ensures var s1 := Close(s, k, refused);
            |s1.conns| == |s.conns| && Destroy(s, k, refused) == s1.(conns := s1.conns[..k] + s1.conns[k + 1..])
  {
    CloseKeeps(s, k, refused);
    hide Close;
    var s1 := Close(s, k, refused);
    assert s1.conns[..k] == s.conns[..k] && s1.conns[k + 1..] == s.conns[k + 1..];
  }

  lemma DumpCases(s: State)
    requires SizesOk(s)
    ensures Dump(s) == s.(recs := Unpend(Unpend(s.recs, s.newQ), s.updQ), dumped := |s.recs|,
                          shown := s.shown + [Delivery(s.newQ, s.updQ)])
  {
  }

  lemma QueuedUnreleased(s: State)
    requires SizesOk(s) && Inv(s)
    ensures forall i :: 0 <= i < |s.newQ| ==> s.recs[s.newQ[i]].releases == 0
    ensures forall i :: 0 <= i < |s.updQ| ==> s.recs[s.updQ[i]].releases == 0
    ensures NoRepeat(s.newQ) && NoRepeat(s.updQ)
  {
    hide LiveKept, Owned, Consecutive;
    var q := Queued(s);
    assert forall i :: 0 <= i < |s.newQ| ==> q[i] == s.newQ[i];
    assert forall i :: 0 <= i < |s.updQ| ==> q[|s.newQ| + i] == s.updQ[i];
    forall i | 0 <= i < |s.newQ|
      ensures s.recs[s.newQ[i]].releases == 0
    {
      assert s.newQ[i] in q;
    }
    forall i | 0 <= i < |s.updQ|
      ensures s.recs[s.updQ[i]].releases == 0
    {
      assert s.updQ[i] in q;
    }
  }

  lemma ApartLists(a: seq<PdConn>, b: seq<PdConn>)
    requires NoRepeat(IdsOf(a) + IdsOf(b))
    ensures NoRepeat(IdsOf(a)) && NoRepeat(IdsOf(b))
    ensures forall i, j :: 0 <= i < |a| && 0 <= j < |b| ==> a[i] != b[j]
  {
    var q, x, y := IdsOf(a) + IdsOf(b), IdsOf(a), IdsOf(b);
    hide IdsOf;
    assert forall i :: 0 <= i < |x| ==> q[i] == x[i];
    assert forall j :: 0 <= j < |y| ==> q[|x| + j] == y[j];
    forall i, j | 0 <= i < |a| && 0 <= j < |b|
      ensures a[i] != b[j]
    {
      assert x[i] == a[i].incrId && y[j] == b[j].incrId;
      assert q[i] != q[|x| + j];
    }
  }

  lemma ClearCases(s: State, freeAll: bool)
    ensures ClearBoth(s, freeAll) == s.(recs := Freed(Freed(s.recs, s.newQ, freeAll), s.updQ, freeAll), newQ := [], updQ := [])
  {
  }

  lemma HousekeepCases(s: State)
    requires SizesOk(s)
    ensures Housekeep(s) == if s.newQ == [] && s.updQ == [] then s else ClearBoth(Dump(s), false)
  {
  }

  lemma ShutdownCases(s: State, refused: nat -> bool)
    requires SizesOk(s) && Inv(s)
    ensures Shutdown(s, refused) == ClearBoth(Dump(DestroyAll(s, refused)), true)
  {
  }

  lemma DestroyAllCases(s: State, refused: nat -> bool)
    requires SizesOk(s) && Inv(s)
    ensures s.conns == [] ==> DestroyAll(s, refused) == s
    ensures s.conns != [] ==>
              var s1 := Destroy(s, 0, refused(|s.conns|));
              SizesOk(s1) && Inv(s1) && |s1.conns| == |s.conns| - 1 && DestroyAll(s, refused) == DestroyAll(s1, refused)
  {
    if s.conns != [] {
      DestroyKeeps(s, 0, refused(|s.conns|));
      ShorterTable(s, refused(|s.conns|));
    }
  }

  lemma UnpendNone(recs: seq<Rec>)
    ensures Unpend(recs, []) == recs
  {
  }

  lemma UnpendStep(recs: seq<Rec>, q: seq<nat>, n: nat)
    requires n < |q| && forall i :: 0 <= i < |q| ==> q[i] < |recs|
    ensures var u := Unpend(recs, q[..n]); Unpend(recs, q[..n + 1]) == u[q[n] := u[q[n]].(pending := false)]
  {
    assert forall x :: x in q[..n + 1] <==> x in q[..n] || x == q[n];
  }

  lemma FreedNone(recs: seq<Rec>, freeAll: bool)
    ensures Freed(recs, [], freeAll) == recs
  {
  }

  lemma FreedStep(recs: seq<Rec>, q: seq<nat>, n: nat, freeAll: bool)
    requires n < |q| && NoRepeat(q) && forall i :: 0 <= i < |q| ==> q[i] < |recs|
    ensures var u := Freed(recs, q[..n], freeAll);
            var x := u[q[n]];
            Freed(recs, q[..n + 1], freeAll) ==
            if x.toPurge || freeAll then u[q[n] := x.(releases := x.releases + 1)] else u
  {
    assert forall x :: x in q[..n + 1] <==> x in q[..n] || x == q[n];
    assert q[n] !in q[..n];
  }

  lemma LiveIsKept(s: State, k: nat)
    requires SizesOk(s) && Inv(s) && k < |s.conns| && !s.conns[k].closed
    ensures var x := s.recs[s.conns[k].rec]; !x.toPurge && !x.silent && x.releases == 0
  {
    hide QueuedOnce, ReleasedOnce, Owned, Consecutive;
  }

  lemma Appended(all: seq<PdConn>, newConns: seq<PdConn>, conns: seq<TunnelConn>, c: TunnelConn)
    ensures RecsOf(all + [c.data]) == RecsOf(all) + [c.data.AsRec()]
    ensures IdsOf(newConns + [c.data]) == IdsOf(newConns) + [c.data.incrId]
    ensures ConnsOf(conns + [c]) == ConnsOf(conns) + [c.AsConn()]
  {
    hide RecsOf, ConnsOf, IdsOf;
  }
}
