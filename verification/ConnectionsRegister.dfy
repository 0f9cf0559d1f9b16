/** ConnectionsRegister: the last `mSize` connections in a ring buffer, with incrementally kept counters. */
module ConnectionsRegister {
  import opened Words

  class ConnectionDescriptor {
    const incrId: int
    const uid: int
    const ifidx: int
    var sentBytes: nat
    var rcvdBytes: nat
    var lastSeen: int
    var blacklistedHost: bool
    var blacklistedIp: bool
    var isBlocked: bool
    var alerted: bool
    var blockAccounted: bool

    function Total(): nat
      reads this`sentBytes, this`rcvdBytes
    {
      sentBytes + rcvdBytes
    }

    predicate IsBlacklisted()
      reads this`blacklistedHost, this`blacklistedIp
    {
      blacklistedIp || blacklistedHost
    }

    function AsMark(): Mark
      reads this`sentBytes, this`rcvdBytes, this`blacklistedHost, this`blacklistedIp, this`isBlocked, this`lastSeen
    {
      Mark(IsBlacklisted(), uid, sentBytes, rcvdBytes, isBlocked, lastSeen)
    }

    method ProcessUpdate(update: ConnectionUpdate)
      modifies this`sentBytes, this`rcvdBytes, this`lastSeen, this`blacklistedHost, this`blacklistedIp, this`isBlocked
      ensures if update.hasStats then
                && sentBytes == update.sentBytes && rcvdBytes == update.rcvdBytes && lastSeen == update.lastSeen
                && blacklistedHost == update.blacklistedHost && blacklistedIp == update.blacklistedIp
                && isBlocked == update.isBlocked
              else unchanged(this)
    {
      if update.hasStats {
        sentBytes := update.sentBytes;
        rcvdBytes := update.rcvdBytes;
        isBlocked := update.isBlocked;
        blacklistedHost := update.blacklistedHost;
        blacklistedIp := update.blacklistedIp;
        lastSeen := update.lastSeen;
      }
    }
  }

  /** `hasStats` is the UPDATE_STATS bit; without it the other fields are the defaults of a new object. */
  datatype ConnectionUpdate = ConnectionUpdate(incrId: int, hasStats: bool, sentBytes: nat, rcvdBytes: nat, lastSeen: int,
                                               blacklistedHost: bool, blacklistedIp: bool, isBlocked: bool)
  {
    function Total(): nat {
      sentBytes + rcvdBytes
    }
  }

  datatype AppStats = AppStats(numConnections: int, sentBytes: int, rcvdBytes: int, numBlocked: int)

  /** The calls a registered listener receives. */
  datatype Event =
    | Removed(start: int, items: seq<ConnectionDescriptor>)
    | Added(start: int, items: seq<ConnectionDescriptor>)
    | Updated(positions: seq<int>)
    | Changed(count: nat)

  // ------------------------------------------------------------------ specification: a plain sequence

  function LastN<T>(s: seq<T>, n: nat): seq<T> {
    if |s| <= n then s else s[|s| - n..]
  }

  /** What a listener that keeps its own copy has after an event; None if the event does not fit the copy. */
  function Replay(mirror: seq<ConnectionDescriptor>, e: Event): Option<seq<ConnectionDescriptor>> {
    match e
    case Removed(p, items) =>
      if 0 <= p && p + |items| <= |mirror| && mirror[p..p + |items|] == items
      then Some(mirror[..p] + mirror[p + |items|..]) else None
    case Added(p, items) =>
      if 0 <= p <= |mirror| then Some(mirror[..p] + items + mirror[p..]) else None
    case Updated(ps) =>
      if forall i :: 0 <= i < |ps| ==> 0 <= ps[i] < |mirror| then Some(mirror) else None
    case Changed(n) => None
  }

  function ReplayAll(mirror: seq<ConnectionDescriptor>, events: seq<Event>): Option<seq<ConnectionDescriptor>>
    decreases |events|
  {
    if events == [] then Some(mirror)
    else match Replay(mirror, events[0])
      case None => None
      case Some(m) => ReplayAll(m, events[1..])
  }

  /** Identifiers grow by one from each connection to the next. */
  ghost predicate Consecutive(s: seq<ConnectionDescriptor>) {
    forall i :: 0 <= i < |s| ==> s[i].incrId == s[0].incrId + i
  }

  /** The connections `conns` come right after those of `s`. */
  ghost predicate ContinuesIds(s: seq<ConnectionDescriptor>, conns: seq<ConnectionDescriptor>) {
    Consecutive(conns) && (s != [] && conns != [] ==> conns[0].incrId == s[0].incrId + |s|)
  }

  ghost function OnInterface(s: seq<ConnectionDescriptor>, ifidx: int): nat {
    if s == [] then 0 else OnInterface(s[..|s| - 1], ifidx) + if s[|s| - 1].ifidx == ifidx then 1 else 0
  }

  /** What the counters look at in a connection. */
  datatype Mark = Mark(blacklisted: bool, uid: int, sent: nat, rcvd: nat, blocked: bool, lastSeen: int)
  {
    function Total(): nat {
      sent + rcvd
    }
  }

  ghost function Marks(s: seq<ConnectionDescriptor>): (r: seq<Mark>)
    reads s
    ensures |r| == |s|
  {
    seq(|s|, i requires 0 <= i < |s| reads s => s[i].AsMark())
  }

  function Malicious(s: seq<Mark>): nat {
    if s == [] then 0 else Malicious(s[..|s| - 1]) + if s[|s| - 1].blacklisted then 1 else 0
  }

  /** What the statistics of an app add up over its connections. */
  datatype Measure = Connections | SentBytes | RcvdBytes

  function Share(m: Mark, uid: int, what: Measure): nat {
    if m.uid != uid then 0
    else match what
      case Connections => 1
      case SentBytes => m.sent
      case RcvdBytes => m.rcvd
  }

  function SumOf(s: seq<Mark>, uid: int, what: Measure): nat {
    if s == [] then 0 else SumOf(s[..|s| - 1], uid, what) + Share(s[|s| - 1], uid, what)
  }

  /** What the statistics say of an app. */
  function Stat(m: map<int, AppStats>, uid: int, what: Measure): int {
    if uid !in m then 0
    else match what
      case Connections => m[uid].numConnections
      case SentBytes => m[uid].sentBytes
      case RcvdBytes => m[uid].rcvdBytes
  }

  /** The statistics of every app are the sums over the connections `s`. */
  ghost predicate AddUp(m: map<int, AppStats>, s: seq<Mark>) {
    forall uid, what :: Stat(m, uid, what) == SumOf(s, uid, what)
  }

  /** None is above its sum, and one is below it. */
  ghost predicate FallShort(m: map<int, AppStats>, s: seq<Mark>) {
    && (forall uid, what :: Stat(m, uid, what) <= SumOf(s, uid, what))
    && (exists uid, what :: Stat(m, uid, what) < SumOf(s, uid, what))
  }

  ghost predicate SameStats(m: map<int, AppStats>, m1: map<int, AppStats>) {
    forall uid, what :: Stat(m1, uid, what) == Stat(m, uid, what)
  }

  /** One connection was added to the statistics. */
  ghost predicate Grown(m: map<int, AppStats>, m1: map<int, AppStats>, x: Mark) {
    forall uid, what :: Stat(m1, uid, what) == Stat(m, uid, what) + Share(x, uid, what)
  }

  /** The statistics of the app of `m` went up by the bytes of an update and down by those of `m`. */
  ghost predicate Moved(m: map<int, AppStats>, m1: map<int, AppStats>, x: Mark, u: ConnectionUpdate) {
    forall uid, what ::
      Stat(m1, uid, what) == Stat(m, uid, what) - Share(x, uid, what) + Share(x.(sent := u.sentBytes, rcvd := u.rcvdBytes), uid, what)
  }

  /** How many of the connections `s` are blocked: of all apps, or of one. */
  function NumBlocked(s: seq<Mark>, who: Option<int>): nat {
    if s == [] then 0 else NumBlocked(s[..|s| - 1], who) + BlockShare(s[|s| - 1], who)
  }

  function BlockShare(m: Mark, who: Option<int>): nat {
    if m.blocked && (who.None? || who.value == m.uid) then 1 else 0
  }

  /** What the counter and the statistics say of it. */
  function BlockStat(total: int, m: map<int, AppStats>, who: Option<int>): int {
    match who
    case None => total
    case Some(uid) => if uid in m then m[uid].numBlocked else 0
  }

  ghost predicate CountBlocks(total: int, m: map<int, AppStats>, s: seq<Mark>) {
    forall who :: BlockStat(total, m, who) == NumBlocked(s, who)
  }

  /** The counts moved by `d` for the app `uid`. */
  ghost predicate BlocksMoved(total: int, m: map<int, AppStats>, total1: int, m1: map<int, AppStats>, uid: int, d: int) {
    forall who :: BlockStat(total1, m1, who) == BlockStat(total, m, who) + if who.None? || who.value == uid then d else 0
  }

  /** The latest time a blocked connection of `s` was seen, if later than `t`. */
  function LatestBlock(t: int, s: seq<Mark>): int {
    if s == [] then t
    else
      var m, before := s[|s| - 1], LatestBlock(t, s[..|s| - 1]);
      if m.blocked then Max(m.lastSeen, before) else before
  }

  function MaxTotal(s: seq<Mark>): nat {
    if s == [] then 0 else Max(MaxTotal(s[..|s| - 1]), s[|s| - 1].Total())
  }

  ghost function SumBlocked(m: map<int, AppStats>): int
    decreases |m|
  {
    if !exists k :: k in m then 0
    else
      var k :| k in m;
      m[k].numBlocked + SumBlocked(m - {k})
  }

  // ------------------------------------------------------------------ facts about the specification

  /** Position `i` places after `p` in a ring of `size` places. */
  function Ring(p: nat, i: nat, size: nat): nat
    requires p < size && i <= size
  {
    if p + i < size then p + i else p + i - size
  }

  lemma MultipleGrows(n: nat, a: nat, b: nat)
    requires a <= b
    ensures n * a <= n * b
  {
  }

  lemma RingIsModulo(p: nat, i: nat, size: nat)
    requires p < size && i <= size
    ensures (p + i) % size == Ring(p, i, size)
  {
    var x := p + i;
    var d := x / size;
    assert x == size * d + x % size;
    if d == 0 {
      assert x == x % size;
    } else {
      MultipleGrows(size, 1, d);
      if d >= 2 {
        MultipleGrows(size, 2, d);
      }
      assert d == 1;
    }
  }

  /** Adding to a full window drops the oldest. */
  function Push<T>(s: seq<T>, x: T, n: nat): seq<T>
    requires 0 < n
  {
    if |s| < n then s + [x] else s[1..] + [x]
  }

  lemma LastNPush<T>(s: seq<T>, x: T, n: nat)
    requires 0 < n
    ensures LastN(s + [x], n) == Push(LastN(s, n), x, n)
  {
  }

  lemma LastNAccumulates<T>(s: seq<T>, t: seq<T>, n: nat)
    ensures LastN(LastN(s, n) + t, n) == LastN(s + t, n)
  {
  }

  lemma {:induction false} OnInterfaceConcat(s: seq<ConnectionDescriptor>, t: seq<ConnectionDescriptor>, ifidx: int)
    ensures OnInterface(s + t, ifidx) == OnInterface(s, ifidx) + OnInterface(t, ifidx)
  {
    if t == [] {
      assert s + t == s;
    } else {
      assert (s + t)[..|s + t| - 1] == s + t[..|t| - 1];
      OnInterfaceConcat(s, t[..|t| - 1], ifidx);
    }
  }

  lemma {:induction false} MarksConcat(s: seq<Mark>, t: seq<Mark>)
    ensures Malicious(s + t) == Malicious(s) + Malicious(t)
    ensures MaxTotal(s + t) == Max(MaxTotal(s), MaxTotal(t))
  {
    if t == [] {
      assert s + t == s;
    } else {
      assert (s + t)[..|s + t| - 1] == s + t[..|t| - 1];
      MarksConcat(s, t[..|t| - 1]);
    }
  }

  lemma {:induction false} SumConcat(s: seq<Mark>, t: seq<Mark>, uid: int, what: Measure)
    ensures SumOf(s + t, uid, what) == SumOf(s, uid, what) + SumOf(t, uid, what)
  {
    if t == [] {
      assert s + t == s;
    } else {
      assert (s + t)[..|s + t| - 1] == s + t[..|t| - 1];
      SumConcat(s, t[..|t| - 1], uid, what);
    }
  }

  lemma SumOfOne(m: Mark, uid: int, what: Measure)
    ensures SumOf([m], uid, what) == Share(m, uid, what)
  {
    assert [m][..0] == [];
  }

  lemma NothingAddsUp()
    ensures AddUp(map[], [])
  {
  }

  lemma {:induction false} BlockedConcat(s: seq<Mark>, t: seq<Mark>, who: Option<int>)
    ensures NumBlocked(s + t, who) == NumBlocked(s, who) + NumBlocked(t, who)
  {
    if t == [] {
      assert s + t == s;
    } else {
      assert (s + t)[..|s + t| - 1] == s + t[..|t| - 1];
      BlockedConcat(s, t[..|t| - 1], who);
    }
  }

  lemma BlockedOfOne(m: Mark, who: Option<int>)
    ensures NumBlocked([m], who) == BlockShare(m, who)
  {
    assert [m][..0] == [];
  }

  /** When one connection changes, the counts of blocked ones change by its share. */
  lemma OneBlockChanged(s: seq<Mark>, p: nat, m: Mark, who: Option<int>)
    requires p < |s|
    ensures NumBlocked(s[p := m], who) == NumBlocked(s, who) + BlockShare(m, who) - BlockShare(s[p], who)
  {
    var a, b := s[..p], s[p + 1..];
    assert s == a + ([s[p]] + b) && s[p := m] == a + ([m] + b);
    hide NumBlocked, BlockShare;
    BlockedConcat(a, [s[p]] + b, who);
    BlockedConcat(a, [m] + b, who);
    BlockedConcat([s[p]], b, who);
    BlockedConcat([m], b, who);
    BlockedOfOne(s[p], who);
    BlockedOfOne(m, who);
  }

  lemma BlocksAdded(total: int, m: map<int, AppStats>, total1: int, m1: map<int, AppStats>, s: seq<Mark>, x: Mark)
    requires BlocksMoved(total, m, total1, m1, x.uid, if x.blocked then 1 else 0)
    ensures CountBlocks(total, m, s) ==> CountBlocks(total1, m1, s + [x])
  {
    hide BlockStat;
    assert (s + [x])[..|s|] == s;
  }

  lemma BlocksUpdated(total: int, m: map<int, AppStats>, total1: int, m1: map<int, AppStats>, s: seq<Mark>, p: nat, x: Mark)
    requires p < |s| && x.uid == s[p].uid
    requires BlocksMoved(total, m, total1, m1, x.uid, (if x.blocked then 1 else 0) - (if s[p].blocked then 1 else 0))
    ensures CountBlocks(total, m, s) ==> CountBlocks(total1, m1, s[p := x])
  {
    hide BlockStat, NumBlocked;
    forall who
      ensures NumBlocked(s[p := x], who) == NumBlocked(s, who) + BlockShare(x, who) - BlockShare(s[p], who)
    {
      OneBlockChanged(s, p, x, who);
    }
  }

  lemma BlocksMovedTwice(t: int, m: map<int, AppStats>, t1: int, m1: map<int, AppStats>, t2: int, m2: map<int, AppStats>, uid: int,
                         d: int, d1: int)
    requires BlocksMoved(t, m, t1, m1, uid, d) && BlocksMoved(t1, m1, t2, m2, uid, d1)
    ensures BlocksMoved(t, m, t2, m2, uid, d + d1)
  {
    hide BlockStat;
  }

  /** It is the maximum of `t` and the times of the blocked connections. */
  lemma {:induction false} LatestBlockIs(t: int, s: seq<Mark>)
    ensures LatestBlock(t, s) >= t && forall i :: 0 <= i < |s| && s[i].blocked ==> LatestBlock(t, s) >= s[i].lastSeen
    ensures LatestBlock(t, s) == t || exists i :: 0 <= i < |s| && s[i].blocked && LatestBlock(t, s) == s[i].lastSeen
  {
    if s != [] {
      var before := s[..|s| - 1];
      LatestBlockIs(t, before);
      assert forall i :: 0 <= i < |before| ==> before[i] == s[i];
    }
  }

  lemma NoLatest(t: int)
    ensures LatestBlock(t, []) == t
  {
  }

  lemma LatestOfOne(t: int, m: Mark)
    ensures LatestBlock(t, [m]) == if m.blocked then Max(m.lastSeen, t) else t
  {
    assert [m][..0] == [];
  }

  lemma LatestNext(t: int, s: seq<Mark>, m: Mark)
    ensures LatestBlock(t, s + [m]) == LatestBlock(LatestBlock(t, s), [m])
  {
    assert (s + [m])[..|s|] == s;
    LatestOfOne(LatestBlock(t, s), m);
  }

  lemma NothingBlocked(total: int)
    ensures CountBlocks(total, map[], []) <==> total == 0
  {
    assert BlockStat(total, map[], None) == total;
  }

  lemma MovedThenSame(m: map<int, AppStats>, m1: map<int, AppStats>, m2: map<int, AppStats>, x: Mark, u: ConnectionUpdate)
    requires Moved(m, m1, x, u) && SameStats(m1, m2)
    ensures Moved(m, m2, x, u)
  {
    hide Stat, Share;
  }

  lemma AddUpNext(m: map<int, AppStats>, m1: map<int, AppStats>, s: seq<Mark>, x: Mark)
    requires Grown(m, m1, x)
    ensures AddUp(m, s) ==> AddUp(m1, s + [x])
  {
    hide Stat, Share;
    assert (s + [x])[..|s|] == s;
  }

  /** Only the blocked connections of an app are counted anew. */
  lemma BlockedAnew(m: map<int, AppStats>, uid: int, n: int)
    requires uid in m
    ensures var m1 := m[uid := m[uid].(numBlocked := n)];
            SameStats(m, m1) && SumBlocked(m1) == SumBlocked(m) - m[uid].numBlocked + n && m1.Keys == m.Keys
  {
    hide SumBlocked;
    SumBlockedUpdate(m, uid, m[uid].(numBlocked := n));
  }

  lemma SameAddUp(m: map<int, AppStats>, m1: map<int, AppStats>, s: seq<Mark>)
    requires SameStats(m, m1)
    ensures AddUp(m, s) <==> AddUp(m1, s)
  {
    hide Stat, SumOf;
  }

  /** When one connection changes, the sums change by its share. */
  lemma OneShareChanged(s: seq<Mark>, p: nat, m: Mark, uid: int, what: Measure)
    requires p < |s|
    ensures SumOf(s[p := m], uid, what) == SumOf(s, uid, what) + Share(m, uid, what) - Share(s[p], uid, what)
  {
    var a, b := s[..p], s[p + 1..];
    assert s == a + ([s[p]] + b) && s[p := m] == a + ([m] + b);
    hide SumOf, Share;
    SumConcat(a, [s[p]] + b, uid, what);
    SumConcat(a, [m] + b, uid, what);
    SumConcat([s[p]], b, uid, what);
    SumConcat([m], b, uid, what);
    SumOfOne(s[p], uid, what);
    SumOfOne(m, uid, what);
  }

  lemma MarksSplitFirst(s: seq<Mark>)
    requires s != []
    ensures Malicious(s) == Malicious(s[1..]) + if s[0].blacklisted then 1 else 0
    ensures MaxTotal(s) == Max(s[0].Total(), MaxTotal(s[1..]))
  {
    assert s == [s[0]] + s[1..] && [s[0]][..0] == [];
    MarksConcat([s[0]], s[1..]);
  }

  lemma InterfacesSplitFirst(s: seq<ConnectionDescriptor>, ifidx: int)
    requires s != []
    ensures OnInterface(s, ifidx) == OnInterface(s[1..], ifidx) + if s[0].ifidx == ifidx then 1 else 0
  {
    assert s == [s[0]] + s[1..] && [s[0]][..0] == [];
    OnInterfaceConcat([s[0]], s[1..], ifidx);
  }

  /** When one connection changes, only its own share of the counts does. */
  lemma OneMarkChanged(s: seq<Mark>, p: nat, m: Mark)
    requires p < |s|
    ensures Malicious(s[p := m]) == Malicious(s) + (if m.blacklisted then 1 else 0) - (if s[p].blacklisted then 1 else 0)
    ensures m.Total() >= s[p].Total() ==> MaxTotal(s[p := m]) == Max(MaxTotal(s), m.Total())
  {
    var a, b := s[..p], s[p + 1..];
    assert s == a + ([s[p]] + b) && s[p := m] == a + ([m] + b);
    MarksConcat(a, [s[p]] + b);
    MarksConcat(a, [m] + b);
    MarksSplitFirst([s[p]] + b);
    MarksSplitFirst([m] + b);
  }

  lemma {:induction false} SumBlockedSplit(m: map<int, AppStats>, k: int)
    requires k in m
    ensures SumBlocked(m) == m[k].numBlocked + SumBlocked(m - {k})
    decreases |m|
  {
    var j :| j in m && SumBlocked(m) == m[j].numBlocked + SumBlocked(m - {j});
    if j != k {
      SumBlockedSplit(m - {j}, k);
      SumBlockedSplit(m - {k}, j);
      assert m - {j} - {k} == m - {k} - {j};
    }
  }

  lemma SumBlockedNone()
    ensures SumBlocked(map[]) == 0
  {
  }

  lemma SumBlockedUpdate(m: map<int, AppStats>, k: int, v: AppStats)
    ensures SumBlocked(m[k := v]) == SumBlocked(m) - (if k in m then m[k].numBlocked else 0) + v.numBlocked
  {
    SumBlockedSplit(m[k := v], k);
    assert m[k := v] - {k} == m - {k};
    if k in m {
      SumBlockedSplit(m, k);
    } else {
      assert m - {k} == m;
    }
  }

  lemma {:induction false} MaxTotalBounds(s: seq<Mark>)
    ensures forall i :: 0 <= i < |s| ==> s[i].Total() <= MaxTotal(s)
    ensures MaxTotal(s) == 0 || exists i :: 0 <= i < |s| && s[i].Total() == MaxTotal(s)
  {
    if s != [] {
      var t := s[..|s| - 1];
      MaxTotalBounds(t);
      assert forall i :: 0 <= i < |t| ==> t[i] == s[i];
    }
  }

  /** `m` maps each interface index above 0 to how many of `s` use it, and nothing else. */
  ghost predicate CountsInterfaces(m: map<int, int>, s: seq<ConnectionDescriptor>) {
    && (forall i :: i in m ==> i > 0)
    && (forall i :: i > 0 ==> if i in m then m[i] == OnInterface(s, i) > 0 else OnInterface(s, i) == 0)
  }

  lemma NoInterfaces(m: map<int, int>)
    ensures CountsInterfaces(m, []) <==> m == map[]
  {
    if CountsInterfaces(m, []) {
      assert forall i :: i > 0 ==> OnInterface([], i) == 0;
      assert forall i :: i !in m;
      assert m == map[];
    }
  }

  lemma LastNConsecutive(s: seq<ConnectionDescriptor>, conns: seq<ConnectionDescriptor>, n: nat)
    requires Consecutive(s) && ContinuesIds(s, conns)
    ensures Consecutive(LastN(s + conns, n))
  {
    var t := s + conns;
    assert forall i :: 0 <= i < |t| ==> t[i].incrId == t[0].incrId + i;
  }

  /** A connection's mark after an update for it. */
  function MarkAfter(u: ConnectionUpdate, m: Mark): Mark {
    if u.hasStats then Mark(u.blacklistedIp || u.blacklistedHost, m.uid, u.sentBytes, u.rcvdBytes, u.isBlocked, u.lastSeen)
    else m
  }

  /** The mark of the connection `id` after a list of updates for any connections. */
  function MarkAfterAll(updates: seq<ConnectionUpdate>, id: int, m: Mark): Mark {
    if updates == [] then m
    else
      var u, before := updates[|updates| - 1], MarkAfterAll(updates[..|updates| - 1], id, m);
      if u.incrId == id then MarkAfter(u, before) else before
  }

  /** The places, in a sequence of `n` connections whose first identifier is `firstId`, that `updates` touch. */
  function Positions(updates: seq<ConnectionUpdate>, firstId: int, n: nat): seq<int> {
    if updates == [] then []
    else
      var p := updates[|updates| - 1].incrId - firstId;
      Positions(updates[..|updates| - 1], firstId, n) + if 0 <= p < n then [p] else []
  }

  /** The marks of the connections held as they were right after each update for them. */
  function Processed(updates: seq<ConnectionUpdate>, firstId: int, marks: seq<Mark>): seq<Mark> {
    if updates == [] then []
    else
      var id := updates[|updates| - 1].incrId;
      Processed(updates[..|updates| - 1], firstId, marks)
      + if 0 <= id - firstId < |marks| then [MarkAfterAll(updates, id, marks[id - firstId])] else []
  }

  /** The mark that the k-th update leads to, if its connection is held. */
  ghost function ProcessedAt(updates: seq<ConnectionUpdate>, k: nat, s: seq<ConnectionDescriptor>, marks: seq<Mark>): seq<Mark>
    requires k < |updates| && s != [] && |s| == |marks|
  {
    var p := updates[k].incrId - s[0].incrId;
    if 0 <= p < |s| then [MarkAfter(updates[k], AllFollowed(updates[..k], s, marks)[p])] else []
  }

  lemma NoneProcessed(firstId: int, marks: seq<Mark>, t: int)
    ensures LatestBlock(t, Processed([], firstId, marks)) == t
  {
  }

  lemma ProcessedNext(updates: seq<ConnectionUpdate>, k: nat, s: seq<ConnectionDescriptor>, marks: seq<Mark>, t: int)
    requires k < |updates| && s != [] && Consecutive(s) && |s| == |marks|
    ensures var before := LatestBlock(t, Processed(updates[..k], s[0].incrId, marks));
            LatestBlock(t, Processed(updates[..k + 1], s[0].incrId, marks)) ==
            LatestBlock(before, ProcessedAt(updates, k, s, marks))
  {
    hide *;
    var before, here := Processed(updates[..k], s[0].incrId, marks), ProcessedAt(updates, k, s, marks);
    ProcessedStep(updates, k, s[0].incrId, marks);
    MarkHere(updates, k, s, marks);
    if here == [] {
      assert before + here == before;
      NoLatest(LatestBlock(t, before));
    } else {
      LatestNext(t, before, here[0]);
    }
  }

  lemma ProcessedStep(updates: seq<ConnectionUpdate>, k: nat, firstId: int, marks: seq<Mark>)
    requires k < |updates|
    ensures var id := updates[k].incrId;
            Processed(updates[..k + 1], firstId, marks) == Processed(updates[..k], firstId, marks) +
            if 0 <= id - firstId < |marks| then [MarkAfterAll(updates[..k + 1], id, marks[id - firstId])] else []
  {
    hide MarkAfterAll;
    assert updates[..k + 1][..k] == updates[..k];
  }

  lemma MarkHere(updates: seq<ConnectionUpdate>, k: nat, s: seq<ConnectionDescriptor>, marks: seq<Mark>)
    requires k < |updates| && s != [] && Consecutive(s) && |s| == |marks|
    ensures var id, p := updates[k].incrId, updates[k].incrId - s[0].incrId;
            && ProcessedAt(updates, k, s, marks) ==
               (if 0 <= p < |marks| then [MarkAfterAll(updates[..k + 1], id, marks[p])] else [])
            && |ProcessedAt(updates, k, s, marks)| <= 1
  {
    var p := updates[k].incrId - s[0].incrId;
    if 0 <= p < |s| {
      PlaceOfId(s, p, updates[k].incrId);
      assert updates[..k + 1] == updates[..k] + [updates[k]];
      hide MarkAfterAll, Consecutive;
      UpdateAppended(updates[..k], updates[k], s[p].incrId, marks[p], s[0].incrId, |s|);
    }
  }

  /** The last update with statistics decides, and none leaves a connection as it was. */
  lemma {:induction false} LastUpdateWins(updates: seq<ConnectionUpdate>, id: int, m: Mark, k: int)
    requires -1 <= k && forall j :: k < j < |updates| ==> updates[j].incrId != id || !updates[j].hasStats
    requires 0 <= k ==> k < |updates| && updates[k].incrId == id && updates[k].hasStats
    ensures MarkAfterAll(updates, id, m) ==
            if k < 0 then m
            else
              var u := updates[k];
              Mark(u.blacklistedIp || u.blacklistedHost, m.uid, u.sentBytes, u.rcvdBytes, u.isBlocked, u.lastSeen)
  {
    if |updates| > k + 1 {
      LastUpdateWins(updates[..|updates| - 1], id, m, k);
    } else if k >= 0 {
      SameApp(updates[..k], id, m);
    }
  }

  lemma {:induction false} SameApp(updates: seq<ConnectionUpdate>, id: int, m: Mark)
    ensures MarkAfterAll(updates, id, m).uid == m.uid
  {
    if updates != [] {
      SameApp(updates[..|updates| - 1], id, m);
    }
  }

  /** The identifiers of the updates for connections of `s`. */
  ghost function IdsIn(updates: seq<ConnectionUpdate>, s: seq<ConnectionDescriptor>): seq<int> {
    if updates == [] then []
    else
      var id := updates[|updates| - 1].incrId;
      IdsIn(updates[..|updates| - 1], s) + if exists i :: 0 <= i < |s| && s[i].incrId == id then [id] else []
  }

  /** The places told to the listeners are those of the connections that were updated, in the order of the updates. */
  lemma {:induction false} PositionsNameIds(updates: seq<ConnectionUpdate>, s: seq<ConnectionDescriptor>)
    requires s != [] && Consecutive(s)
    ensures var ps := Positions(updates, s[0].incrId, |s|);
            && |ps| == |IdsIn(updates, s)|
            && forall j :: 0 <= j < |ps| ==> 0 <= ps[j] < |s| && s[ps[j]].incrId == IdsIn(updates, s)[j]
  {
    if updates != [] {
      PositionsNameIds(updates[..|updates| - 1], s);
      var p := updates[|updates| - 1].incrId - s[0].incrId;
      if 0 <= p < |s| {
        PlaceOfId(s, p, updates[|updates| - 1].incrId);
      }
      assert forall i :: 0 <= i < |s| ==> s[i].incrId == s[0].incrId + i;
    }
  }

  /** No update lowers a connection's byte count, and one without statistics carries no bytes. */
  ghost predicate NonDecreasing(updates: seq<ConnectionUpdate>, s: seq<ConnectionDescriptor>, marks: seq<Mark>)
    requires |s| == |marks|
  {
    forall k, i :: 0 <= k < |updates| && 0 <= i < |s| && s[i].incrId == updates[k].incrId ==>
      if updates[k].hasStats then MarkAfterAll(updates[..k], s[i].incrId, marks[i]).Total() <= updates[k].Total()
      else updates[k].Total() == 0
  }

  /** The statistics are brought up to date with an update's bytes in any case, the connection only if it has some. */
  predicate Carries(u: ConnectionUpdate, m: Mark) {
    u.hasStats || (u.sentBytes == m.sent && u.rcvdBytes == m.rcvd)
  }

  /** An update without statistics has no bytes: they are the defaults of a new object. */
  predicate BytesWithStats(u: ConnectionUpdate) {
    !u.hasStats ==> u.Total() == 0
  }

  ghost predicate AllBytesWithStats(updates: seq<ConnectionUpdate>) {
    forall k :: 0 <= k < |updates| ==> BytesWithStats(updates[k])
  }

  /** Every update for a connection held carries statistics, or the bytes the connection has anyway. */
  ghost predicate CarryStats(updates: seq<ConnectionUpdate>, s: seq<ConnectionDescriptor>, marks: seq<Mark>)
    requires |s| == |marks|
  {
    forall k, i :: 0 <= k < |updates| && 0 <= i < |s| && s[i].incrId == updates[k].incrId ==>
      Carries(updates[k], MarkAfterAll(updates[..k], s[i].incrId, marks[i]))
  }

  /** The same for one update, for connections whose first identifier is `firstId`. */
  predicate Keeps(u: ConnectionUpdate, firstId: int, marks: seq<Mark>) {
    var p := u.incrId - firstId;
    0 <= p < |marks| ==> Carries(u, marks[p])
  }

  lemma CarryStep(updates: seq<ConnectionUpdate>, k: nat, s: seq<ConnectionDescriptor>, marks: seq<Mark>)
    requires k < |updates| && s != [] && Consecutive(s) && |s| == |marks|
    ensures CarryStats(updates[..k + 1], s, marks) <==>
              CarryStats(updates[..k], s, marks) && Keeps(updates[k], s[0].incrId, AllFollowed(updates[..k], s, marks))
  {
    hide MarkAfterAll, Carries, Consecutive;
    assert forall j :: 0 <= j < k ==> updates[..k + 1][j] == updates[..k][j] && updates[..k + 1][..j] == updates[..k][..j];
    assert updates[..k + 1][k] == updates[k] && updates[..k + 1][..k] == updates[..k];
    var p := updates[k].incrId - s[0].incrId;
    forall i | 0 <= i < |s|
      ensures s[i].incrId == updates[k].incrId <==> i == p
    {
      PlaceOfId(s, i, updates[k].incrId);
    }
  }

  /** What an update of the connection at place `p` does to the statistics and to the sums. */
  lemma UpdateTotals(m: map<int, AppStats>, m1: map<int, AppStats>, s: seq<Mark>, p: nat, u: ConnectionUpdate)
    requires p < |s| && Moved(m, m1, s[p], u)
    ensures var s1 := s[p := MarkAfter(u, s[p])];
            && (AddUp(m, s) ==> (AddUp(m1, s1) <==> Carries(u, s[p])))
            && (BytesWithStats(u) ==> (FallShort(m, s) ==> FallShort(m1, s1)) && (AddUp(m, s) && !Carries(u, s[p]) ==> FallShort(m1, s1)))
  {
    var x, s1 := s[p], s[p := MarkAfter(u, s[p])];
    forall uid, what
      ensures SumOf(s1, uid, what) == SumOf(s, uid, what) + Share(MarkAfter(u, x), uid, what) - Share(x, uid, what)
    {
      OneShareChanged(s, p, MarkAfter(u, x), uid, what);
    }
    hide SumOf, Stat;
    TotalsBefore(m, m1, s, s1, x, u);
  }

  lemma TotalsBefore(m: map<int, AppStats>, m1: map<int, AppStats>, s: seq<Mark>, s1: seq<Mark>, x: Mark, u: ConnectionUpdate)
    requires Moved(m, m1, x, u)
    requires forall uid, what :: SumOf(s1, uid, what) == SumOf(s, uid, what) + Share(MarkAfter(u, x), uid, what) - Share(x, uid, what)
    ensures AddUp(m, s) ==> (AddUp(m1, s1) <==> Carries(u, x))
    ensures BytesWithStats(u) ==> (FallShort(m, s) ==> FallShort(m1, s1)) && (AddUp(m, s) && !Carries(u, x) ==> FallShort(m1, s1))
  {
    hide SumOf, Stat;
    var y := x.(sent := u.sentBytes, rcvd := u.rcvdBytes);
    forall uid, what
      ensures Stat(m1, uid, what) - SumOf(s1, uid, what) ==
              Stat(m, uid, what) - SumOf(s, uid, what) + Share(y, uid, what) - Share(MarkAfter(u, x), uid, what)
    {
    }
    assert u.hasStats ==> forall uid, what :: Share(y, uid, what) == Share(MarkAfter(u, x), uid, what);
    if !u.hasStats {
      Unmatched(m, m1, s, s1, x, y);
    }
  }

  /** Without statistics the sums stay, and the statistics move from the bytes of `x` to those of `y`. */
  lemma Unmatched(m: map<int, AppStats>, m1: map<int, AppStats>, s: seq<Mark>, s1: seq<Mark>, x: Mark, y: Mark)
    requires x.uid == y.uid
    requires forall uid, what :: Stat(m1, uid, what) - SumOf(s1, uid, what) ==
                                 Stat(m, uid, what) - SumOf(s, uid, what) + Share(y, uid, what) - Share(x, uid, what)
    ensures AddUp(m, s) ==> (AddUp(m1, s1) <==> x.sent == y.sent && x.rcvd == y.rcvd)
    ensures y.Total() == 0 ==>
              (FallShort(m, s) ==> FallShort(m1, s1)) && (AddUp(m, s) && (x.sent != y.sent || x.rcvd != y.rcvd) ==> FallShort(m1, s1))
  {
    hide SumOf, Stat;
    assert Share(x, x.uid, SentBytes) == x.sent && Share(y, x.uid, SentBytes) == y.sent;
    assert Share(x, x.uid, RcvdBytes) == x.rcvd && Share(y, x.uid, RcvdBytes) == y.rcvd;
    if FallShort(m, s) && y.Total() == 0 {
      var uid, what :| Stat(m, uid, what) < SumOf(s, uid, what);
      assert Stat(m1, uid, what) < SumOf(s1, uid, what);
    }
    if AddUp(m, s) && y.Total() == 0 && (x.sent != 0 || x.rcvd != 0) {
      var what := if x.sent != 0 then SentBytes else RcvdBytes;
      assert Stat(m, x.uid, what) == SumOf(s, x.uid, what);
      assert Stat(m1, x.uid, what) < SumOf(s1, x.uid, what);
    }
  }

  lemma ShortIsNotExact(m: map<int, AppStats>, s: seq<Mark>)
    requires FallShort(m, s)
    ensures !AddUp(m, s)
  {
  }

  /** The marks of all connections of `s` after `updates`. */
  ghost function AllFollowed(updates: seq<ConnectionUpdate>, s: seq<ConnectionDescriptor>, marks: seq<Mark>): (r: seq<Mark>)
    requires |s| == |marks|
  {
    seq(|s|, i requires 0 <= i < |s| => MarkAfterAll(updates, s[i].incrId, marks[i]))
  }

  /** Consecutive identifiers make the place of an update's connection the distance of the identifiers. */
  lemma PlaceOfId(s: seq<ConnectionDescriptor>, i: nat, id: int)
    requires Consecutive(s) && i < |s|
    ensures s[i].incrId == id <==> i == id - s[0].incrId
  {
  }

  lemma FollowStep(updates: seq<ConnectionUpdate>, k: nat, s: seq<ConnectionDescriptor>, marks: seq<Mark>)
    requires k < |updates| && s != [] && Consecutive(s) && |s| == |marks|
    ensures var u, p, now := updates[k], updates[k].incrId - s[0].incrId, AllFollowed(updates[..k], s, marks);
            AllFollowed(updates[..k + 1], s, marks) == if 0 <= p < |s| then now[p := MarkAfter(u, now[p])] else now
  {
    hide MarkAfterAll, Consecutive;
    assert updates[..k + 1] == updates[..k] + [updates[k]];
    forall i | 0 <= i < |s|
      ensures AllFollowed(updates[..k + 1], s, marks)[i] ==
              if i == updates[k].incrId - s[0].incrId then MarkAfter(updates[k], AllFollowed(updates[..k], s, marks)[i])
              else AllFollowed(updates[..k], s, marks)[i]
    {
      PlaceOfId(s, i, updates[k].incrId);
      UpdateAppended(updates[..k], updates[k], s[i].incrId, marks[i], s[0].incrId, |s|);
    }
  }

  lemma NonDecreasingAt(updates: seq<ConnectionUpdate>, k: nat, s: seq<ConnectionDescriptor>, marks: seq<Mark>)
    requires k < |updates| && s != [] && Consecutive(s) && |s| == |marks| && NonDecreasing(updates, s, marks)
    ensures var u, p := updates[k], updates[k].incrId - s[0].incrId;
            0 <= p < |s| ==>
              if u.hasStats then AllFollowed(updates[..k], s, marks)[p].Total() <= u.Total() else u.Total() == 0
  {
    var p := updates[k].incrId - s[0].incrId;
    if 0 <= p < |s| {
      PlaceOfId(s, p, updates[k].incrId);
    }
  }

  lemma UpdateAppended(before: seq<ConnectionUpdate>, u: ConnectionUpdate, id: int, m: Mark, firstId: int, n: nat)
    ensures MarkAfterAll(before + [u], id, m) ==
            if u.incrId == id then MarkAfter(u, MarkAfterAll(before, id, m)) else MarkAfterAll(before, id, m)
    ensures Positions(before + [u], firstId, n) ==
            Positions(before, firstId, n) + if 0 <= u.incrId - firstId < n then [u.incrId - firstId] else []
  {
    assert (before + [u])[..|before|] == before;
  }

  lemma RingBack(p: nat, i: nat, size: nat)
    requires p < size && i < size
    ensures (Ring(p, i, size) + size - p) % size == i
  {
    if p + i < size {
      RingIsModulo(i, size, size);
    } else {
      RingIsModulo(i, 0, size);
    }
  }

  // ------------------------------------------------------------------ the register

  class ConnectionsRegister {
    const mSize: nat
    const mItemsRing: array<ConnectionDescriptor?>
    var mTail: nat
    var mCurItems: nat
    var mUntrackedItems: nat
    var mNumMalicious: int
    var mNumBlocked: int
    var mLastFirewallBlock: int
    var mMaxBytes: nat
    var mAppsStats: map<int, AppStats>
    var mConnsByIface: map<int, int>
    var events: seq<Event> // the calls every registered listener received
    ghost var contents: seq<ConnectionDescriptor> // oldest first
    ghost var given: seq<ConnectionDescriptor> // every connection given since the last reset
    ghost var dropped: seq<Mark> // the connections counted since then and dropped from the ring, as they were dropped

    function FirstPos(): nat
      reads `mCurItems, `mTail
    {
      if mCurItems < mSize then 0 else mTail
    }

    ghost predicate Valid()
      reads `mTail, `mCurItems, `contents, mItemsRing
    {
      && mItemsRing.Length == mSize && |contents| == mCurItems <= mSize
      && (mCurItems < mSize ==> mTail == mCurItems)
      && (if mSize > 0 then mTail < mSize else mTail == 0)
      && (forall i :: 0 <= i < mCurItems ==> mItemsRing[Ring(FirstPos(), i, mSize)] == contents[i])
    }

    /** The register holds the last `mSize` of all connections given since the last reset, and counts the others. */
    ghost predicate KeepsLast()
      reads `contents, `given, `mUntrackedItems
    {
      contents == LastN(given, mSize) && |contents| + mUntrackedItems == |given|
    }

    ghost predicate InterfacesOf(s: seq<ConnectionDescriptor>)
      reads `mConnsByIface
    {
      CountsInterfaces(mConnsByIface, s)
    }

    ghost predicate MaliciousOf(s: seq<ConnectionDescriptor>)
      reads `mNumMalicious, s
    {
      mNumMalicious == Malicious(Marks(s))
    }

    ghost predicate AlertsShown(s: seq<ConnectionDescriptor>)
      reads s
    {
      forall i :: 0 <= i < |s| ==> s[i].alerted == s[i].IsBlacklisted()
    }

    /** `mMaxBytes` is the maximum over `s`, or must be computed anew and is not below it. */
    ghost predicate MaxOf(s: seq<ConnectionDescriptor>, stale: bool)
      reads `mMaxBytes, s
    {
      mMaxBytes >= MaxTotal(Marks(s)) && (!stale ==> mMaxBytes == MaxTotal(Marks(s)))
    }

    ghost predicate MaliciousExact()
      reads `contents, `mNumMalicious, contents
    {
      MaliciousOf(contents) && AlertsShown(contents)
    }

    ghost predicate InterfacesExact()
      reads `contents, `mConnsByIface
    {
      InterfacesOf(contents)
    }

    ghost predicate BlockedExact()
      reads `mNumBlocked, `mAppsStats
    {
      mNumBlocked == SumBlocked(mAppsStats)
    }

    ghost predicate BlocksShown(s: seq<ConnectionDescriptor>)
      reads s
    {
      forall i :: 0 <= i < |s| ==> s[i].blockAccounted == s[i].isBlocked
    }

    /** The blocked connections of all apps, and those of each, are counted over the ones dropped and those of `s`. */
    ghost predicate BlocksOf(s: seq<ConnectionDescriptor>)
      reads `mNumBlocked, `mAppsStats, `dropped, s
    {
      CountBlocks(mNumBlocked, mAppsStats, dropped + Marks(s)) && BlocksShown(s)
    }

    ghost predicate BlocksExact()
      reads `contents, `mNumBlocked, `mAppsStats, `dropped, contents
    {
      BlocksOf(contents)
    }

    /** The statistics of each app are the sums over the connections dropped and those of `s`. */
    ghost predicate TotalsOf(s: seq<ConnectionDescriptor>)
      reads `mAppsStats, `dropped, s
    {
      AddUp(mAppsStats, dropped + Marks(s))
    }

    ghost predicate TotalsExact()
      reads `contents, `mAppsStats, `dropped, contents
    {
      TotalsOf(contents)
    }

    ghost predicate TotalsShort()
      reads `contents, `mAppsStats, `dropped, contents
    {
      FallShort(mAppsStats, dropped + Marks(contents))
    }

    ghost predicate MaxExact()
      reads `contents, `mMaxBytes, contents
    {
      MaxOf(contents, false)
    }

    constructor (size: nat)
      ensures Valid() && fresh(mItemsRing) && KeepsLast() && mSize == size && contents == [] && given == [] && events == []
      ensures MaliciousExact() && InterfacesExact() && BlockedExact() && MaxExact() && TotalsExact() && BlocksExact()
    {
      mSize := size;
      mItemsRing := new ConnectionDescriptor?[size](_ => null);
      mTail, mCurItems, mUntrackedItems, mMaxBytes := 0, 0, 0, 0;
      mNumMalicious, mNumBlocked, mLastFirewallBlock := 0, 0, 0;
      mAppsStats, mConnsByIface, events, contents, given, dropped := map[], map[], [], [], [], [];
    }

    /** New alerts and blocks are counted once, and withdrawn when the connection is cleared. */
    method ProcessConnectionStatus(conn: ConnectionDescriptor)
      requires conn.uid in mAppsStats
      modifies `mNumMalicious, `mNumBlocked, `mLastFirewallBlock, `mAppsStats, conn`alerted, conn`blockAccounted
      ensures conn.alerted == conn.IsBlacklisted() && conn.blockAccounted == conn.isBlocked
      ensures mNumMalicious == old(mNumMalicious) + (if conn.alerted then 1 else 0) - (if old(conn.alerted) then 1 else 0)
      ensures mNumBlocked - old(mNumBlocked) ==
                (if conn.isBlocked then 1 else 0) - (if old(conn.blockAccounted) then 1 else 0)
      ensures BlocksMoved(old(mNumBlocked), old(mAppsStats), mNumBlocked, mAppsStats, conn.uid,
                          (if conn.isBlocked then 1 else 0) - (if old(conn.blockAccounted) then 1 else 0))
      ensures mLastFirewallBlock == if conn.isBlocked then Max(conn.lastSeen, old(mLastFirewallBlock)) else old(mLastFirewallBlock)
      ensures old(BlockedExact()) ==> BlockedExact()
      ensures mAppsStats.Keys == old(mAppsStats.Keys) && SameStats(old(mAppsStats), mAppsStats)
    {
      hide SumBlocked, SameStats;
      var isBlacklisted := conn.IsBlacklisted();
      if !conn.alerted && isBlacklisted {
        conn.alerted := true;
        mNumMalicious := mNumMalicious + 1;
      } else if conn.alerted && !isBlacklisted {
        conn.alerted := false;
        mNumMalicious := mNumMalicious - 1;
      }
      var stats := mAppsStats[conn.uid];
      BlockedAnew(mAppsStats, conn.uid, stats.numBlocked);
      BlockedAnew(mAppsStats, conn.uid, stats.numBlocked + 1);
      BlockedAnew(mAppsStats, conn.uid, stats.numBlocked - 1);
      assert mAppsStats[conn.uid := stats.(numBlocked := stats.numBlocked)] == mAppsStats;
      if !conn.blockAccounted && conn.isBlocked {
        mNumBlocked := mNumBlocked + 1;
        mAppsStats := mAppsStats[conn.uid := stats.(numBlocked := stats.numBlocked + 1)];
        conn.blockAccounted := true;
      } else if conn.blockAccounted && !conn.isBlocked {
        mNumBlocked := mNumBlocked - 1;
        mAppsStats := mAppsStats[conn.uid := stats.(numBlocked := stats.numBlocked - 1)];
        conn.blockAccounted := false;
      }
      if conn.isBlocked {
        mLastFirewallBlock := Max(conn.lastSeen, mLastFirewallBlock);
      }
    }

    method GetAppsStatsOrCreate(uid: int) returns (stats: AppStats)
      modifies `mAppsStats
      ensures uid in mAppsStats && mAppsStats[uid] == stats
      ensures mAppsStats == old(mAppsStats) || mAppsStats == old(mAppsStats)[uid := AppStats(0, 0, 0, 0)]
      ensures SumBlocked(mAppsStats) == old(SumBlocked(mAppsStats)) && SameStats(old(mAppsStats), mAppsStats)
      ensures BlocksMoved(mNumBlocked, old(mAppsStats), mNumBlocked, mAppsStats, uid, 0)
    {
      if uid !in mAppsStats {
        SumBlockedUpdate(mAppsStats, uid, AppStats(0, 0, 0, 0));
        mAppsStats := mAppsStats[uid := AppStats(0, 0, 0, 0)];
      }
      stats := mAppsStats[uid];
    }

    /** Takes a connection that is about to be dropped, the first of `s`, out of the counters. */
    method Uncount(conn: ConnectionDescriptor, recalc0: bool, ghost s: seq<ConnectionDescriptor>) returns (recalc: bool)
      requires s != [] && s[0] == conn
      modifies `mConnsByIface, `mNumMalicious
      ensures old(InterfacesOf(s)) ==> InterfacesOf(s[1..])
      ensures old(MaliciousOf(s)) ==> MaliciousOf(s[1..])
      ensures MaxOf(s, recalc0) ==> MaxOf(s[1..], recalc)
    {
      hide OnInterface, Malicious, MaxTotal, Marks;
      recalc := recalc0;
      SplitOldest(s);
      if conn.ifidx > 0 {
        var numConn := (if conn.ifidx in mConnsByIface then mConnsByIface[conn.ifidx] else 0) - 1;
        if numConn <= 0 {
          mConnsByIface := mConnsByIface - {conn.ifidx};
        } else {
          mConnsByIface := mConnsByIface[conn.ifidx := numConn];
        }
      }
      if conn.IsBlacklisted() {
        mNumMalicious := mNumMalicious - 1;
      }
      if conn.Total() == mMaxBytes {
        recalc := true;
      }
    }

    /** Takes the `outItems` oldest connections out of the counters; the ring itself is overwritten later. */
    method RemoveOldest(outItems: nat) returns (removed: seq<ConnectionDescriptor>, recalc: bool)
      requires Valid() && outItems <= mCurItems
      modifies `mConnsByIface, `mNumMalicious
      ensures removed == contents[..outItems]
      ensures old(InterfacesExact()) ==> InterfacesOf(contents[outItems..])
      ensures old(MaliciousExact()) ==> MaliciousOf(contents[outItems..])
      ensures MaxExact() ==> MaxOf(contents[outItems..], recalc)
    {
      hide InterfacesOf, MaliciousOf, MaxOf;
      removed, recalc := [], false;
      var pos := FirstPos();
      var i := 0;
      assert contents[0..] == contents;
      while i < outItems
        invariant 0 <= i <= outItems && (i < mCurItems ==> pos == Ring(FirstPos(), i, mSize))
        invariant removed == contents[..i]
        invariant old(InterfacesExact()) ==> InterfacesOf(contents[i..])
        invariant old(MaliciousExact()) ==> MaliciousOf(contents[i..])
        invariant MaxExact() ==> MaxOf(contents[i..], recalc)
      {
        var conn := mItemsRing[pos];
        if conn != null {
          assert contents[i..][0] == conn && contents[i..][1..] == contents[i + 1..];
          recalc := Uncount(conn, recalc, contents[i..]);
          removed := removed + [conn];
        }
        RingIsModulo(pos, 1, mSize);
        pos := (pos + 1) % mSize;
        i := i + 1;
      }
    }

    lemma SplitOldest(s: seq<ConnectionDescriptor>)
      requires s != []
      ensures forall i :: OnInterface(s, i) == OnInterface(s[1..], i) + if s[0].ifidx == i then 1 else 0
      ensures Malicious(Marks(s)) == Malicious(Marks(s[1..])) + if s[0].IsBlacklisted() then 1 else 0
      ensures MaxTotal(Marks(s)) == Max(s[0].Total(), MaxTotal(Marks(s[1..])))
    {
      forall i
        ensures OnInterface(s, i) == OnInterface(s[1..], i) + if s[0].ifidx == i then 1 else 0
      {
        InterfacesSplitFirst(s, i);
      }
      MarksSplitFirst(Marks(s));
      assert Marks(s)[1..] == Marks(s[1..]);
    }

    lemma SplitNewest(s: seq<ConnectionDescriptor>, c: ConnectionDescriptor)
      ensures forall i :: OnInterface(s + [c], i) == OnInterface(s, i) + if c.ifidx == i then 1 else 0
      ensures Malicious(Marks(s + [c])) == Malicious(Marks(s)) + if c.IsBlacklisted() then 1 else 0
      ensures MaxTotal(Marks(s + [c])) == Max(MaxTotal(Marks(s)), c.Total())
    {
      assert (s + [c])[..|s|] == s;
      assert Marks(s + [c])[..|s|] == Marks(s);
    }

    /** Writes a connection over the oldest slot of a full ring, or after the newest. */
    method Put(conn: ConnectionDescriptor)
      requires Valid() && mSize > 0
      modifies `mTail, `mCurItems, `contents, mItemsRing
      ensures Valid() && contents == Push(old(contents), conn, mSize)
    {
      ghost var first := FirstPos();
      mItemsRing[mTail] := conn;
      RingIsModulo(mTail, 1, mSize);
      mTail := (mTail + 1) % mSize;
      mCurItems := Min(mCurItems + 1, mSize);
      contents := Push(contents, conn, mSize);
    }

    /** Counts a connection that was put at the end of `s`. */
    method Count(conn: ConnectionDescriptor, recalc0: bool, ghost s: seq<ConnectionDescriptor>) returns (recalc: bool)
      requires !conn.alerted && !conn.blockAccounted && conn !in s
      modifies `mConnsByIface, `mNumMalicious, `mNumBlocked, `mLastFirewallBlock, `mAppsStats, `mMaxBytes
      modifies conn`alerted, conn`blockAccounted
      ensures old(InterfacesOf(s)) ==> InterfacesOf(s + [conn])
      ensures old(MaliciousOf(s)) ==> MaliciousOf(s + [conn])
      ensures conn.alerted == conn.IsBlacklisted()
      ensures old(BlockedExact()) ==> BlockedExact()
      ensures old(TotalsOf(s)) ==> TotalsOf(s + [conn])
      ensures old(BlocksOf(s)) ==> BlocksOf(s + [conn])
      ensures mLastFirewallBlock == LatestBlock(old(mLastFirewallBlock), [conn.AsMark()])
      ensures old(MaxOf(s, recalc0)) ==> MaxOf(s + [conn], recalc)
    {
      hide InterfacesOf, Malicious, MaxTotal, SumBlocked, AddUp, CountBlocks, LatestBlock;
      recalc := recalc0;
      ghost var marks := Marks(s);
      CountInterface(conn, s);
      CountApp(conn, dropped + marks);
      assert dropped + Marks(s + [conn]) == dropped + Marks(s) + [conn.AsMark()];
      var totBytes := conn.Total();
      if totBytes > mMaxBytes {
        mMaxBytes := totBytes;
        recalc := false;
      }
      SplitNewest(s, conn);
      assert Marks(s) == old(Marks(s));
    }

    /** The statistics of the connection's app, which may be new; `before` are the connections counted so far. */
    method CountApp(conn: ConnectionDescriptor, ghost before: seq<Mark>)
      requires !conn.alerted && !conn.blockAccounted
      modifies `mNumMalicious, `mNumBlocked, `mLastFirewallBlock, `mAppsStats, conn`alerted, conn`blockAccounted
      ensures mNumMalicious == old(mNumMalicious) + if conn.alerted then 1 else 0
      ensures conn.alerted == conn.IsBlacklisted() && conn.blockAccounted == conn.isBlocked
      ensures old(BlockedExact()) ==> BlockedExact()
      ensures old(AddUp(mAppsStats, before)) ==> AddUp(mAppsStats, before + [conn.AsMark()])
      ensures old(CountBlocks(mNumBlocked, mAppsStats, before)) ==> CountBlocks(mNumBlocked, mAppsStats, before + [conn.AsMark()])
      ensures mLastFirewallBlock == LatestBlock(old(mLastFirewallBlock), [conn.AsMark()])
    {
      hide SumBlocked, AddUp, SameStats, CountBlocks, BlocksMoved, LatestBlock;
      var _ := GetAppsStatsOrCreate(conn.uid);
      ghost var m := mAppsStats;
      SameAddUp(old(mAppsStats), m, before);
      CountStats(conn, before);
      BlocksMovedTwice(old(mNumBlocked), old(mAppsStats), old(mNumBlocked), m, mNumBlocked, mAppsStats, conn.uid, 0,
                       if conn.isBlocked then 1 else 0);
      BlocksAdded(old(mNumBlocked), old(mAppsStats), mNumBlocked, mAppsStats, before, conn.AsMark());
    }

    /** Alerts, blocks and statistics. */
    method CountStats(conn: ConnectionDescriptor, ghost before: seq<Mark>)
      requires !conn.alerted && !conn.blockAccounted && conn.uid in mAppsStats
      modifies `mNumMalicious, `mNumBlocked, `mLastFirewallBlock, `mAppsStats, conn`alerted, conn`blockAccounted
      ensures mNumMalicious == old(mNumMalicious) + if conn.alerted then 1 else 0
      ensures conn.alerted == conn.IsBlacklisted() && conn.blockAccounted == conn.isBlocked
      ensures old(BlockedExact()) ==> BlockedExact()
      ensures old(AddUp(mAppsStats, before)) ==> AddUp(mAppsStats, before + [conn.AsMark()])
      ensures BlocksMoved(old(mNumBlocked), old(mAppsStats), mNumBlocked, mAppsStats, conn.uid, if conn.isBlocked then 1 else 0)
      ensures mLastFirewallBlock == LatestBlock(old(mLastFirewallBlock), [conn.AsMark()])
    {
      hide SumBlocked, AddUp, SameStats, Grown, BlocksMoved, LatestBlock;
      ProcessConnectionStatus(conn);
      LatestOfOne(old(mLastFirewallBlock), conn.AsMark());
      ghost var m := mAppsStats;
      AccountBytes(conn);
      SameAddUp(old(mAppsStats), m, before);
      AddUpNext(m, mAppsStats, before, conn.AsMark());
      BlocksMovedTwice(old(mNumBlocked), old(mAppsStats), mNumBlocked, m, mNumBlocked, mAppsStats, conn.uid,
                       if conn.isBlocked then 1 else 0, 0);
    }

    method CountInterface(conn: ConnectionDescriptor, ghost s: seq<ConnectionDescriptor>)
      modifies `mConnsByIface
      ensures old(InterfacesOf(s)) ==> InterfacesOf(s + [conn])
    {
      hide OnInterface;
      if conn.ifidx > 0 {
        var numConn := if conn.ifidx in mConnsByIface then mConnsByIface[conn.ifidx] else 0;
        mConnsByIface := mConnsByIface[conn.ifidx := numConn + 1];
      }
      SplitNewest(s, conn);
    }

    method AccountBytes(conn: ConnectionDescriptor)
      requires conn.uid in mAppsStats
      modifies `mAppsStats
      ensures SumBlocked(mAppsStats) == old(SumBlocked(mAppsStats)) && Grown(old(mAppsStats), mAppsStats, conn.AsMark())
      ensures BlocksMoved(mNumBlocked, old(mAppsStats), mNumBlocked, mAppsStats, conn.uid, 0)
    {
      var stats := mAppsStats[conn.uid];
      stats := stats.(numConnections := stats.numConnections + 1, rcvdBytes := stats.rcvdBytes + conn.rcvdBytes,
                      sentBytes := stats.sentBytes + conn.sentBytes);
      SumBlockedUpdate(mAppsStats, conn.uid, stats);
      mAppsStats := mAppsStats[conn.uid := stats];
    }

    /** The maximum over the ring. */
    method CalculateMaxBytes()
      requires Valid()
      modifies `mMaxBytes
      ensures MaxExact()
    {
      hide MaxTotal;
      var maxBytes: nat := 0;
      var i := 0;
      ghost var best := 0;
      while i < mCurItems
        invariant 0 <= i <= mCurItems
        invariant forall j :: 0 <= j < i ==> mItemsRing[j] != null && mItemsRing[j].Total() <= maxBytes
        invariant maxBytes == 0 || (best < i && mItemsRing[best] != null && mItemsRing[best].Total() == maxBytes)
      {
        assert mItemsRing[Ring(FirstPos(), Place(i), mSize)] == contents[Place(i)];
        var conn := mItemsRing[i];
        if conn.Total() > maxBytes {
          best := i;
        }
        maxBytes := Max(maxBytes, conn.Total());
        i := i + 1;
      }
      mMaxBytes := maxBytes;
      MaxTotalBounds(Marks(contents));
      if maxBytes > 0 {
        assert contents[Place(best)] == mItemsRing[best];
        assert Marks(contents)[Place(best)].Total() == maxBytes;
      }
      forall k | 0 <= k < mCurItems
        ensures Marks(contents)[k].Total() <= maxBytes
      {
        assert contents[k] == mItemsRing[Ring(FirstPos(), k, mSize)];
      }
    }

    /** Where in `contents` the connection at ring position `j` stands. */
    ghost function Place(j: nat): (k: nat)
      requires Valid() && j < mCurItems
      reads `mTail, `mCurItems, `contents, mItemsRing
      ensures k < mCurItems && Ring(FirstPos(), k, mSize) == j
    {
      if j >= FirstPos() then j - FirstPos() else j - FirstPos() + mSize
    }

    method AddOne(conn: ConnectionDescriptor, recalc0: bool, ghost s: seq<ConnectionDescriptor>,
                  ghost base: seq<ConnectionDescriptor>) returns (recalc: bool)
      requires Valid() && mSize > 0 && contents == LastN(base, mSize)
      requires !conn.alerted && !conn.blockAccounted && conn !in s
      modifies `mTail, `mCurItems, `contents, mItemsRing
      modifies `mConnsByIface, `mNumMalicious, `mNumBlocked, `mLastFirewallBlock, `mAppsStats, `mMaxBytes
      modifies conn`alerted, conn`blockAccounted
      ensures Valid() && contents == LastN(base + [conn], mSize)
      ensures old(InterfacesOf(s)) ==> InterfacesOf(s + [conn])
      ensures old(MaliciousOf(s)) ==> MaliciousOf(s + [conn])
      ensures old(AlertsShown(s)) ==> AlertsShown(s + [conn])
      ensures old(BlockedExact()) ==> BlockedExact()
      ensures old(TotalsOf(s)) ==> TotalsOf(s + [conn])
      ensures old(BlocksOf(s)) ==> BlocksOf(s + [conn])
      ensures mLastFirewallBlock == LatestBlock(old(mLastFirewallBlock), [conn.AsMark()])
      ensures old(MaxOf(s, recalc0)) ==> MaxOf(s + [conn], recalc)
    {
      hide CountsInterfaces, Malicious, MaxTotal, SumBlocked, Marks, Push, LastN, AddUp, CountBlocks, LatestBlock;
      LastNPush(base, conn, mSize);
      Put(conn);
      recalc := Count(conn, recalc0, s);
    }

    /** Puts and counts `conns` after the connections `rest` that stay. */
    method AddAll(conns: seq<ConnectionDescriptor>, recalc0: bool, ghost rest: seq<ConnectionDescriptor>) returns (recalc: bool)
      requires Valid() && |conns| <= mSize
      requires forall i :: 0 <= i < |conns| ==> !conns[i].alerted && !conns[i].blockAccounted && conns[i] !in rest
      requires forall i, j :: 0 <= i < j < |conns| ==> conns[i] != conns[j]
      modifies `mTail, `mCurItems, `contents, mItemsRing
      modifies `mConnsByIface, `mNumMalicious, `mNumBlocked, `mLastFirewallBlock, `mAppsStats, `mMaxBytes
      modifies conns
      ensures Valid() && contents == LastN(old(contents) + conns, mSize) && Marks(conns) == old(Marks(conns))
      ensures old(InterfacesOf(rest)) ==> InterfacesOf(rest + conns)
      ensures old(MaliciousOf(rest)) ==> MaliciousOf(rest + conns)
      ensures old(AlertsShown(rest)) ==> AlertsShown(rest + conns)
      ensures old(BlockedExact()) ==> BlockedExact()
      ensures old(TotalsOf(rest)) ==> TotalsOf(rest + conns)
      ensures old(BlocksOf(rest)) ==> BlocksOf(rest + conns)
      ensures mLastFirewallBlock == LatestBlock(old(mLastFirewallBlock), Marks(conns))
      ensures old(MaxOf(rest, recalc0)) ==> MaxOf(rest + conns, recalc)
    {
      hide InterfacesOf, MaliciousOf, AlertsShown, BlockedExact, MaxOf, TotalsOf, LastN, BlocksOf, LatestBlock;
      LastNFits(contents, mSize);
      recalc := recalc0;
      var i := 0;
      NoLatest(mLastFirewallBlock);
      assert rest + conns[..0] == rest && old(contents) + conns[..0] == old(contents);
      while i < |conns|
        invariant 0 <= i <= |conns| && Valid() && contents == LastN(old(contents) + conns[..i], mSize)
        invariant forall k :: i <= k < |conns| ==> !conns[k].alerted && !conns[k].blockAccounted
        invariant Marks(conns) == old(Marks(conns))
        invariant old(InterfacesOf(rest)) ==> InterfacesOf(rest + conns[..i])
        invariant old(MaliciousOf(rest)) ==> MaliciousOf(rest + conns[..i])
        invariant old(AlertsShown(rest)) ==> AlertsShown(rest + conns[..i])
        invariant old(BlockedExact()) ==> BlockedExact()
        invariant old(TotalsOf(rest)) ==> TotalsOf(rest + conns[..i])
        invariant old(BlocksOf(rest)) ==> BlocksOf(rest + conns[..i])
        invariant mLastFirewallBlock == LatestBlock(old(mLastFirewallBlock), Marks(conns)[..i])
        invariant old(MaxOf(rest, recalc0)) ==> MaxOf(rest + conns[..i], recalc)
      {
        assert rest + conns[..i + 1] == rest + conns[..i] + [conns[i]];
        assert old(contents) + conns[..i + 1] == old(contents) + conns[..i] + [conns[i]];
        assert Marks(conns)[..i + 1] == Marks(conns)[..i] + [conns[i].AsMark()];
        LatestNext(old(mLastFirewallBlock), Marks(conns)[..i], conns[i].AsMark());
        recalc := AddOne(conns[i], recalc, rest + conns[..i], old(contents) + conns[..i]);
        i := i + 1;
      }
      assert conns[..i] == conns && Marks(conns)[..i] == Marks(conns);
    }

    /** Takes the `outItems` oldest out, adds `conns`, and brings the maximum up to date. */
    method Replace(conns: seq<ConnectionDescriptor>, outItems: nat) returns (removedItems: seq<ConnectionDescriptor>)
      requires Valid() && |conns| <= mSize && outItems <= mCurItems
      requires LastN(contents + conns, mSize) == contents[outItems..] + conns
      requires forall i :: 0 <= i < |conns| ==> !conns[i].alerted && !conns[i].blockAccounted && conns[i] !in contents
      requires forall i, j :: 0 <= i < j < |conns| ==> conns[i] != conns[j]
      modifies `mTail, `mCurItems, `contents, `dropped, mItemsRing
      modifies `mConnsByIface, `mNumMalicious, `mNumBlocked, `mLastFirewallBlock, `mAppsStats, `mMaxBytes
      modifies conns
      ensures Valid() && contents == old(contents)[outItems..] + conns && Marks(conns) == old(Marks(conns))
      ensures dropped == old(dropped) + old(Marks(contents))[..outItems]
      ensures removedItems == old(contents)[..outItems]
      ensures old(MaliciousExact()) ==> MaliciousExact()
      ensures old(InterfacesExact()) ==> InterfacesExact()
      ensures old(BlockedExact()) ==> BlockedExact()
      ensures old(MaxExact()) ==> MaxExact()
      ensures old(TotalsExact()) ==> TotalsExact()
      ensures old(BlocksExact()) ==> BlocksExact()
      ensures mLastFirewallBlock == LatestBlock(old(mLastFirewallBlock), Marks(conns))
    {
      hide InterfacesOf, MaliciousOf, AlertsShown, BlockedExact, MaxOf, TotalsOf, LastN, Marks, BlocksOf, LatestBlock;
      var recalcMaxBytes := false;
      removedItems := [];
      ghost var rest := contents[outItems..];
      assert outItems == 0 ==> rest == contents;
      if outItems > 0 {
        removedItems, recalcMaxBytes := RemoveOldest(outItems);
      }
      AlertsOfRest(contents, outItems);
      Drop(outItems);
      Refill(conns, recalcMaxBytes, rest);
      assert contents == rest + conns;
    }

    lemma AlertsOfRest(s: seq<ConnectionDescriptor>, n: nat)
      requires n <= |s|
      ensures AlertsShown(s) ==> AlertsShown(s[n..])
    {
    }

    /** Adds `conns` to the connections `rest` that stay, and brings the maximum up to date. */
    method Refill(conns: seq<ConnectionDescriptor>, recalc0: bool, ghost rest: seq<ConnectionDescriptor>)
      requires Valid() && |conns| <= mSize && LastN(contents + conns, mSize) == rest + conns
      requires forall i :: 0 <= i < |conns| ==> !conns[i].alerted && !conns[i].blockAccounted && conns[i] !in rest
      requires forall i, j :: 0 <= i < j < |conns| ==> conns[i] != conns[j]
      modifies `mTail, `mCurItems, `contents, mItemsRing
      modifies `mConnsByIface, `mNumMalicious, `mNumBlocked, `mLastFirewallBlock, `mAppsStats, `mMaxBytes
      modifies conns
      ensures Valid() && contents == rest + conns && Marks(conns) == old(Marks(conns))
      ensures old(InterfacesOf(rest)) ==> InterfacesOf(contents)
      ensures old(MaliciousOf(rest)) ==> MaliciousOf(contents)
      ensures old(AlertsShown(rest)) ==> AlertsShown(contents)
      ensures old(BlockedExact()) ==> BlockedExact()
      ensures old(TotalsOf(rest)) ==> TotalsOf(contents)
      ensures old(BlocksOf(rest)) ==> BlocksOf(contents)
      ensures mLastFirewallBlock == LatestBlock(old(mLastFirewallBlock), Marks(conns))
      ensures old(MaxOf(rest, recalc0)) ==> MaxOf(contents, false)
    {
      hide InterfacesOf, MaliciousOf, AlertsShown, BlockedExact, TotalsOf, LastN, Marks, BlocksOf, LatestBlock, MaxTotal;
      var recalcMaxBytes := AddAll(conns, recalc0, rest);
      if recalcMaxBytes {
        CalculateMaxBytes();
      }
    }

    /** The `n` oldest connections, which are counted in the statistics, will leave the ring. */
    ghost method Drop(n: nat)
      requires n <= |contents|
      modifies `dropped
      ensures dropped == old(dropped) + Marks(contents)[..n]
      ensures old(TotalsExact()) ==> TotalsOf(contents[n..])
      ensures old(BlocksExact()) ==> BlocksOf(contents[n..])
    {
      hide Marks, AddUp, CountBlocks;
      MarksSplit(contents, n);
      assert Marks(contents)[..n] == Marks(contents[..n]);
      ConcatAssoc(dropped, Marks(contents[..n]), Marks(contents[n..]));
      dropped := dropped + Marks(contents[..n]);
    }

    /** Of the connections `marks` that were held the oldest were dropped, to make room for `n` more. */
    ghost predicate Dropped(before: seq<Mark>, marks: seq<Mark>, n: nat)
      reads `dropped, `contents
    {
      0 <= |marks| + n - |contents| <= |marks| && dropped == before + marks[..|marks| + n - |contents|]
    }

    lemma MarksSplit(s: seq<ConnectionDescriptor>, n: nat)
      requires n <= |s|
      ensures Marks(s) == Marks(s[..n]) + Marks(s[n..])
    {
    }

    method NotifyAdded(removedItems: seq<ConnectionDescriptor>, position: int, conns: seq<ConnectionDescriptor>)
      modifies `events
      ensures old(events) <= events
      ensures events[|old(events)|..] == (if removedItems != [] then [Removed(0, removedItems)] else [])
                                         + (if conns != [] then [Added(position, conns)] else [])
    {
      if |removedItems| > 0 {
        events := events + [Removed(0, removedItems)];
      }
      if |conns| > 0 {
        events := events + [Added(position, conns)];
      }
    }

    /** The insertion of at most `mSize` connections, with the listeners told. */
    method Insert(conns: seq<ConnectionDescriptor>)
      requires Valid() && |conns| <= mSize
      requires forall i :: 0 <= i < |conns| ==> !conns[i].alerted && !conns[i].blockAccounted && conns[i] !in contents
      requires forall i, j :: 0 <= i < j < |conns| ==> conns[i] != conns[j]
      modifies this, mItemsRing, conns
      ensures Valid() && contents == LastN(old(contents) + conns, mSize)
      ensures given == old(given) && Dropped(old(dropped), old(Marks(contents)), |conns|) && Marks(conns) == old(Marks(conns))
      ensures mCurItems + mUntrackedItems == old(mCurItems + mUntrackedItems) + |conns|
      ensures old(MaliciousExact()) ==> MaliciousExact()
      ensures old(InterfacesExact()) ==> InterfacesExact()
      ensures old(BlockedExact()) ==> BlockedExact()
      ensures old(MaxExact()) ==> MaxExact()
      ensures old(TotalsExact()) ==> TotalsExact()
      ensures old(BlocksExact()) ==> BlocksExact()
      ensures mLastFirewallBlock == LatestBlock(old(mLastFirewallBlock), Marks(conns))
      ensures old(events) <= events && ReplayAll(old(contents), events[|old(events)|..]) == Some(contents)
    {
      hide MaliciousExact, InterfacesExact, BlockedExact, MaxExact, TotalsExact, BlocksExact, LatestBlock, LastN, ReplayAll, Marks;
      var outItems := |conns| - Min(mSize - mCurItems, |conns|);
      LastNTrims(contents, conns, conns, outItems, mSize);
      var insertPos := mCurItems;
      ReplayAdds(contents, outItems, conns);
      var removedItems := Replace(conns, outItems);
      mUntrackedItems := mUntrackedItems + outItems;
      NotifyAdded(removedItems, insertPos - outItems, conns);
    }

    /** New connections from the capture: afterwards the register holds the last `mSize` of all connections given,
        every counter that was exact still is, and a listener that replays the events has the same sequence. */
    method NewConnections(conns0: seq<ConnectionDescriptor>)
      requires Valid() && Consecutive(contents) && ContinuesIds(contents, conns0)
      requires forall i :: 0 <= i < |conns0| ==> !conns0[i].alerted && !conns0[i].blockAccounted
      modifies this, mItemsRing, conns0
      ensures Valid() && Consecutive(contents) && contents == LastN(old(contents) + conns0, mSize)
      ensures given == old(given) + conns0 && (old(KeepsLast()) ==> KeepsLast())
      ensures Dropped(old(dropped), old(Marks(contents)), |LastN(conns0, mSize)|)
      ensures Marks(LastN(conns0, mSize)) == old(Marks(LastN(conns0, mSize)))
      ensures mCurItems + mUntrackedItems == old(mCurItems + mUntrackedItems) + |conns0|
      ensures old(MaliciousExact()) ==> MaliciousExact()
      ensures old(InterfacesExact()) ==> InterfacesExact()
      ensures old(BlockedExact()) ==> BlockedExact()
      ensures old(MaxExact()) ==> MaxExact()
      ensures old(TotalsExact()) ==> TotalsExact()
      ensures old(BlocksExact()) ==> BlocksExact()
      ensures mLastFirewallBlock == LatestBlock(old(mLastFirewallBlock), Marks(LastN(conns0, mSize)))
      ensures old(events) <= events && ReplayAll(old(contents), events[|old(events)|..]) == Some(contents)
    {
      hide MaliciousExact, InterfacesExact, BlockedExact, MaxExact, TotalsExact, BlocksExact, LatestBlock, LastN, ReplayAll,
           Consecutive, Marks, Dropped, Valid;
      FreshIds(contents, conns0);
      LastNConsecutive(contents, conns0, mSize);
      HeldAreFew();
      var conns := TakeLatest(conns0);
      LastNTrims(contents, conns0, conns, |conns| - Min(mSize - |contents|, |conns|), mSize);
      LastNAccumulates(given, conns0, mSize);
      Insert(conns);
      HeldAreFew();
      given := given + conns0;
    }

    lemma HeldAreFew()
      requires Valid()
      ensures |contents| == mCurItems <= mSize
    {
    }

    /** A batch longer than the register is cut to the latest; the others are counted. */
    method TakeLatest(conns0: seq<ConnectionDescriptor>) returns (conns: seq<ConnectionDescriptor>)
      modifies `mUntrackedItems
      ensures conns == LastN(conns0, mSize) == if |conns0| > mSize then conns0[|conns0| - mSize..] else conns0
      ensures mUntrackedItems + |conns| == old(mUntrackedItems) + |conns0| && |conns| <= mSize
      ensures forall i :: 0 <= i < |conns| ==> conns[i] == conns0[|conns0| - |conns| + i]
    {
      conns := conns0;
      if |conns| > mSize {
        mUntrackedItems := mUntrackedItems + |conns| - mSize;
        conns := conns[|conns| - mSize..];
      }
    }

    ghost predicate Distinct()
      reads `contents
    {
      forall i, j :: 0 <= i < j < |contents| ==> contents[i] != contents[j]
    }

    method AccountUpdate(conn: ConnectionDescriptor, update: ConnectionUpdate)
      modifies `mAppsStats
      ensures conn.uid in mAppsStats && SumBlocked(mAppsStats) == old(SumBlocked(mAppsStats))
      ensures Moved(old(mAppsStats), mAppsStats, conn.AsMark(), update)
      ensures BlocksMoved(mNumBlocked, old(mAppsStats), mNumBlocked, mAppsStats, conn.uid, 0)
    {
      var stats := GetAppsStatsOrCreate(conn.uid);
      stats := stats.(sentBytes := stats.sentBytes + update.sentBytes - conn.sentBytes,
                      rcvdBytes := stats.rcvdBytes + update.rcvdBytes - conn.rcvdBytes);
      SumBlockedUpdate(mAppsStats, conn.uid, stats);
      mAppsStats := mAppsStats[conn.uid := stats];
    }

    /** The effect of one update on its connection and on the totals. */
    method TakeUpdate(conn: ConnectionDescriptor, update: ConnectionUpdate)
      modifies `mAppsStats, `mMaxBytes, `mNumMalicious, `mNumBlocked, `mLastFirewallBlock, conn
      ensures conn.AsMark() == MarkAfter(update, old(conn.AsMark()))
      ensures conn.alerted == conn.IsBlacklisted()
      ensures mNumMalicious == old(mNumMalicious) + (if conn.alerted then 1 else 0) - (if old(conn.alerted) then 1 else 0)
      ensures conn.blockAccounted == conn.isBlocked
      ensures BlocksMoved(old(mNumBlocked), old(mAppsStats), mNumBlocked, mAppsStats, conn.uid,
                          (if conn.isBlocked then 1 else 0) - (if old(conn.blockAccounted) then 1 else 0))
      ensures mLastFirewallBlock == LatestBlock(old(mLastFirewallBlock), [conn.AsMark()])
      ensures old(BlockedExact()) ==> BlockedExact()
      ensures mMaxBytes == Max(old(mMaxBytes), update.Total())
      ensures Moved(old(mAppsStats), mAppsStats, old(conn.AsMark()), update)
    {
      hide SumBlocked, Moved, SameStats, BlocksMoved, LatestBlock;
      ghost var x := conn.AsMark();
      AccountUpdate(conn, update);
      ghost var m := mAppsStats;
      mMaxBytes := Max(mMaxBytes, update.Total());
      conn.ProcessUpdate(update);
      ProcessConnectionStatus(conn);
      LatestOfOne(old(mLastFirewallBlock), conn.AsMark());
      BlocksMovedTwice(old(mNumBlocked), old(mAppsStats), old(mNumBlocked), m, mNumBlocked, mAppsStats, conn.uid, 0,
                       (if conn.isBlocked then 1 else 0) - (if old(conn.blockAccounted) then 1 else 0));
      MovedThenSame(old(mAppsStats), m, mAppsStats, x, update);
    }

    /** The same, for the connection at place `p`. */
    method TakeHeld(conn: ConnectionDescriptor, update: ConnectionUpdate, ghost p: nat)
      requires Valid() && Distinct() && p < |contents| && contents[p] == conn
      modifies `mAppsStats, `mMaxBytes, `mNumMalicious, `mNumBlocked, `mLastFirewallBlock, conn
      ensures var marks, x := old(Marks(contents)), MarkAfter(update, old(Marks(contents))[p]);
              && Marks(contents) == marks[p := x] && mMaxBytes == Max(old(mMaxBytes), update.Total())
              && (old(AlertsShown(contents)) ==>
                    && AlertsShown(contents)
                    && mNumMalicious == old(mNumMalicious) + (if x.blacklisted then 1 else 0) - (if marks[p].blacklisted then 1 else 0))
              && (old(BlocksShown(contents)) ==>
                    && BlocksShown(contents)
                    && BlocksMoved(old(mNumBlocked), old(mAppsStats), mNumBlocked, mAppsStats, x.uid,
                                   (if x.blocked then 1 else 0) - (if marks[p].blocked then 1 else 0)))
              && mLastFirewallBlock == LatestBlock(old(mLastFirewallBlock), [x])
              && Moved(old(mAppsStats), mAppsStats, marks[p], update)
      ensures old(BlockedExact()) ==> BlockedExact()
    {
      hide Moved, BlocksMoved, LatestBlock, SumBlocked, Valid;
      ghost var marks := Marks(contents);
      TakeUpdate(conn, update);
      forall i | 0 <= i < |contents|
        ensures contents[i].AsMark() == marks[p := MarkAfter(update, marks[p])][i]
        ensures old(BlocksShown(contents)) ==> contents[i].blockAccounted == contents[i].isBlocked
        ensures old(AlertsShown(contents)) ==> contents[i].alerted == contents[i].IsBlacklisted()
      {
        assert i != p ==> contents[i] != conn;
      }
    }

    /** One update for the connection at place `p`. */
    method ApplyUpdate(conn: ConnectionDescriptor, update: ConnectionUpdate, ghost p: nat)
      requires Valid() && Distinct() && p < |contents| && contents[p] == conn
      modifies `mAppsStats, `mMaxBytes, `mNumMalicious, `mNumBlocked, `mLastFirewallBlock, conn
      ensures Marks(contents) == old(Marks(contents))[p := MarkAfter(update, old(Marks(contents))[p])]
      ensures old(MaliciousExact()) ==> MaliciousExact()
      ensures old(BlockedExact()) ==> BlockedExact()
      ensures old(BlocksExact()) ==> BlocksExact()
      ensures mLastFirewallBlock == LatestBlock(old(mLastFirewallBlock), [MarkAfter(update, old(Marks(contents))[p])])
      ensures var kept := if update.hasStats then old(Marks(contents))[p].Total() <= update.Total() else update.Total() == 0;
              old(MaxExact()) && kept ==> MaxExact()
      ensures old(TotalsExact()) ==> (TotalsExact() <==> Carries(update, old(Marks(contents))[p]))
      ensures BytesWithStats(update) ==>
                && (old(TotalsShort()) ==> TotalsShort())
                && (old(TotalsExact()) && !Carries(update, old(Marks(contents))[p]) ==> TotalsShort())
    {
      hide Malicious, MaxTotal, SumBlocked, AddUp, FallShort, Moved, Carries, CountBlocks, BlocksMoved, LatestBlock, Marks,
           AlertsShown, BlocksShown, BlockedExact, Valid, Distinct;
      ghost var marks := Marks(contents);
      ghost var x := MarkAfter(update, marks[p]);
      OneMarkChanged(marks, p, x);
      MaxTotalBounds(marks);
      TakeHeld(conn, update, p);
      UpdateTotals(old(mAppsStats), mAppsStats, dropped + marks, |dropped| + p, update);
      assert (dropped + marks)[|dropped| + p := x] == dropped + marks[p := x];
      if old(BlocksShown(contents)) {
        BlocksUpdated(old(mNumBlocked), old(mAppsStats), mNumBlocked, mAppsStats, dropped + marks, |dropped| + p, x);
      }
    }

    /** How the totals stand: exact, or short of the sums. */
    ghost predicate TotalsAre(exact: bool)
      reads `contents, `mAppsStats, `dropped, contents
    {
      if exact then TotalsExact() else TotalsShort()
    }

    /** Applies `update` if its connection is held; returns the place it stands at, for the listeners. */
    method UpdateOne(update: ConnectionUpdate, firstPos: nat, firstId: int, lastId: int) returns (changed: Option<int>)
      requires Valid() && Distinct() && Consecutive(contents) && contents != []
      requires firstPos == FirstPos() && firstId == contents[0].incrId && lastId == firstId + |contents| - 1
      modifies `mAppsStats, `mMaxBytes, `mNumMalicious, `mNumBlocked, `mLastFirewallBlock, contents
      ensures var p := update.incrId - firstId;
              if 0 <= p < |contents| then
                && changed == Some(p)
                && Marks(contents) == old(Marks(contents))[p := MarkAfter(update, old(Marks(contents))[p])]
              else changed == None && Marks(contents) == old(Marks(contents))
      ensures old(MaliciousExact()) ==> MaliciousExact()
      ensures old(BlockedExact()) ==> BlockedExact()
      ensures old(BlocksExact()) ==> BlocksExact()
      ensures var p := update.incrId - firstId;
              mLastFirewallBlock ==
              if 0 <= p < |contents| then LatestBlock(old(mLastFirewallBlock), [MarkAfter(update, old(Marks(contents))[p])])
              else old(mLastFirewallBlock)
      ensures var p := update.incrId - firstId;
              old(MaxExact()) && (0 <= p < |contents| ==>
                if update.hasStats then old(Marks(contents))[p].Total() <= update.Total() else update.Total() == 0)
              ==> MaxExact()
      ensures old(TotalsExact()) && Keeps(update, firstId, old(Marks(contents))) ==> TotalsExact()
      ensures BytesWithStats(update) ==> (old(TotalsExact()) ==> TotalsAre(Keeps(update, firstId, old(Marks(contents)))))
      ensures BytesWithStats(update) ==> (old(TotalsShort()) ==> TotalsShort())
    {
      hide MaliciousExact, BlockedExact, MaxExact, TotalsExact, TotalsShort, Carries, BytesWithStats, BlocksExact, LatestBlock;
      changed := None;
      var id := update.incrId;
      if firstId <= id <= lastId {
        RingIsModulo(firstPos, id - firstId, mSize);
        var pos := (id - firstId + firstPos) % mSize;
        var conn := mItemsRing[pos];
        if conn.incrId != id {
          assert false; // the Java assert
        }
        ghost var p := id - firstId;
        ApplyUpdate(conn, update, p);
        RingBack(firstPos, p, mSize);
        changed := Some((pos + mSize - firstPos) % mSize);
      }
    }

    /** The k-th of `updates`; `marks` are the marks before the first. */
    method UpdateStep(updates: seq<ConnectionUpdate>, k: nat, changedPos0: seq<int>, firstPos: nat, firstId: int, lastId: int,
                      ghost marks: seq<Mark>) returns (changedPos: seq<int>)
      requires Valid() && Distinct() && Consecutive(contents) && contents != [] && k < |updates|
      requires firstPos == FirstPos() && firstId == contents[0].incrId && lastId == firstId + |contents| - 1
      requires Followed(updates[..k], contents, marks) && changedPos0 == Positions(updates[..k], firstId, |contents|)
      modifies `mAppsStats, `mMaxBytes, `mNumMalicious, `mNumBlocked, `mLastFirewallBlock, contents
      ensures Followed(updates[..k + 1], contents, marks)
      ensures changedPos == Positions(updates[..k + 1], firstId, |contents|)
      ensures old(MaliciousExact()) ==> MaliciousExact()
      ensures old(BlockedExact()) ==> BlockedExact()
      ensures old(BlocksExact()) ==> BlocksExact()
      ensures mLastFirewallBlock == LatestBlock(old(mLastFirewallBlock), ProcessedAt(updates, k, contents, marks))
      ensures old(MaxExact()) && NonDecreasing(updates, contents, marks) ==> MaxExact()
      ensures CarryStats(updates[..k + 1], contents, marks) ==> CarryStats(updates[..k], contents, marks)
      ensures old(TotalsExact()) && CarryStats(updates[..k + 1], contents, marks) ==> TotalsExact()
      ensures AllBytesWithStats(updates) && old(TotalsAre(CarryStats(updates[..k], contents, marks))) ==>
                TotalsAre(CarryStats(updates[..k + 1], contents, marks))
    {
      hide Marks, MaliciousExact, BlockedExact, MaxExact, Valid, Distinct, AllFollowed, NonDecreasing, Consecutive, Positions,
           TotalsExact, TotalsShort, CarryStats, Keeps, BytesWithStats, BlocksExact, LatestBlock;
      FollowStep(updates, k, contents, marks);
      CarryStep(updates, k, contents, marks);
      if NonDecreasing(updates, contents, marks) {
        NonDecreasingAt(updates, k, contents, marks);
      }
      assert updates[..k + 1] == updates[..k] + [updates[k]];
      UpdateAppended(updates[..k], updates[k], firstId, marks[0], firstId, |contents|);
      var changed := UpdateOne(updates[k], firstPos, firstId, lastId);
      changedPos := changedPos0;
      NoLatest(old(mLastFirewallBlock));
      if changed.Some? {
        changedPos := changedPos + [changed.value];
      }
    }

    lemma NothingCarried(s: seq<ConnectionDescriptor>, marks: seq<Mark>)
      requires |s| == |marks|
      ensures CarryStats([], s, marks)
    {
    }

    lemma FollowedNothing(s: seq<ConnectionDescriptor>)
      ensures Followed([], s, Marks(s))
    {
    }

    method UpdateAll(updates: seq<ConnectionUpdate>, firstPos: nat, firstId: int, lastId: int) returns (changedPos: seq<int>)
      requires Valid() && Distinct() && Consecutive(contents) && contents != []
      requires firstPos == FirstPos() && firstId == contents[0].incrId && lastId == firstId + |contents| - 1
      modifies `mAppsStats, `mMaxBytes, `mNumMalicious, `mNumBlocked, `mLastFirewallBlock, contents
      ensures Followed(updates, contents, old(Marks(contents)))
      ensures changedPos == Positions(updates, firstId, |contents|)
      ensures old(MaliciousExact()) ==> MaliciousExact()
      ensures old(BlockedExact()) ==> BlockedExact()
      ensures old(BlocksExact()) ==> BlocksExact()
      ensures mLastFirewallBlock == LatestBlock(old(mLastFirewallBlock), Processed(updates, firstId, old(Marks(contents))))
      ensures old(MaxExact()) && NonDecreasing(updates, contents, old(Marks(contents))) ==> MaxExact()
      ensures old(TotalsExact()) && CarryStats(updates, contents, old(Marks(contents))) ==> TotalsExact()
      ensures old(TotalsExact()) && AllBytesWithStats(updates) ==> TotalsAre(CarryStats(updates, contents, old(Marks(contents))))
    {
      NothingCarried(contents, Marks(contents));
      hide Marks, Followed, MaliciousExact, BlockedExact, MaxExact, Valid, Distinct, NonDecreasing, Consecutive, AllFollowed,
           TotalsExact, TotalsShort, CarryStats, AllBytesWithStats, BlocksExact, LatestBlock, Processed;
      ghost var marks := Marks(contents);
      FollowedNothing(contents);
      assert updates[..0] == [];
      NoneProcessed(firstId, marks, mLastFirewallBlock);
      changedPos := [];
      var k := 0;
      while k < |updates|
        invariant 0 <= k <= |updates|
        invariant changedPos == Positions(updates[..k], firstId, |contents|)
        invariant Followed(updates[..k], contents, marks)
        invariant old(MaliciousExact()) ==> MaliciousExact()
        invariant old(BlockedExact()) ==> BlockedExact()
        invariant old(BlocksExact()) ==> BlocksExact()
        invariant mLastFirewallBlock == LatestBlock(old(mLastFirewallBlock), Processed(updates[..k], firstId, marks))
        invariant old(MaxExact()) && NonDecreasing(updates, contents, marks) ==> MaxExact()
        invariant old(TotalsExact()) && CarryStats(updates[..k], contents, marks) ==> TotalsExact()
        invariant old(TotalsExact()) && AllBytesWithStats(updates) ==> TotalsAre(CarryStats(updates[..k], contents, marks))
      {
        ProcessedNext(updates, k, contents, marks, old(mLastFirewallBlock));
        changedPos := UpdateStep(updates, k, changedPos, firstPos, firstId, lastId, marks);
        k := k + 1;
      }
      assert updates[..k] == updates;
    }

    /** Updates from the capture, applied to the connections that are still held; the others are ignored. */
    method ConnectionsUpdates(updates: seq<ConnectionUpdate>)
      requires Valid() && Consecutive(contents)
      modifies this, contents
      ensures Valid() && contents == old(contents) && given == old(given) && mUntrackedItems == old(mUntrackedItems)
      ensures Followed(updates, contents, old(Marks(contents)))
      ensures var changed := if contents == [] then [] else Positions(updates, contents[0].incrId, |contents|);
              events == old(events) + if changed == [] then [] else [Updated(changed)]
      ensures InterfacesExact() <==> old(InterfacesExact())
      ensures old(MaliciousExact()) ==> MaliciousExact()
      ensures old(BlockedExact()) ==> BlockedExact()
      ensures old(BlocksExact()) ==> BlocksExact()
      ensures mLastFirewallBlock ==
              if contents == [] then old(mLastFirewallBlock)
              else LatestBlock(old(mLastFirewallBlock), Processed(updates, contents[0].incrId, old(Marks(contents))))
      ensures old(MaxExact()) && NonDecreasing(updates, contents, old(Marks(contents))) ==> MaxExact()
      ensures dropped == old(dropped)
      ensures old(TotalsExact()) && CarryStats(updates, contents, old(Marks(contents))) ==> TotalsExact()
      ensures old(TotalsExact()) && AllBytesWithStats(updates) ==>
                (TotalsExact() <==> CarryStats(updates, contents, old(Marks(contents))))
    {
      hide Marks, Followed, MaliciousExact, BlockedExact, MaxExact, InterfacesExact, TotalsExact, TotalsShort, Positions,
           NonDecreasing, CarryStats, AllBytesWithStats, Consecutive, BlocksExact, LatestBlock, Processed;
      if mCurItems == 0 {
        NothingCarried(contents, Marks(contents));
        NothingFollowed(updates, contents);
        return;
      }
      var changedPos := UpdateHeld(updates);
      ExactOrShort();
      if |changedPos| == 0 {
        return;
      }
      events := events + [Updated(changedPos)];
    }

    lemma ExactOrShort()
      ensures TotalsShort() ==> !TotalsExact()
    {
      hide AddUp, FallShort;
      if TotalsShort() {
        ShortIsNotExact(mAppsStats, dropped + Marks(contents));
      }
    }

    lemma NothingFollowed(updates: seq<ConnectionUpdate>, s: seq<ConnectionDescriptor>)
      requires s == []
      ensures Followed(updates, s, Marks(s)) && CarryStats(updates, s, Marks(s))
    {
    }

    /** The updates for a register that holds connections; returns the places touched. */
    method UpdateHeld(updates: seq<ConnectionUpdate>) returns (changedPos: seq<int>)
      requires Valid() && Consecutive(contents) && mCurItems > 0
      modifies `mAppsStats, `mMaxBytes, `mNumMalicious, `mNumBlocked, `mLastFirewallBlock, contents
      ensures Followed(updates, contents, old(Marks(contents)))
      ensures changedPos == Positions(updates, contents[0].incrId, |contents|)
      ensures old(MaliciousExact()) ==> MaliciousExact()
      ensures old(BlockedExact()) ==> BlockedExact()
      ensures old(BlocksExact()) ==> BlocksExact()
      ensures mLastFirewallBlock ==
              LatestBlock(old(mLastFirewallBlock), Processed(updates, contents[0].incrId, old(Marks(contents))))
      ensures old(MaxExact()) && NonDecreasing(updates, contents, old(Marks(contents))) ==> MaxExact()
      ensures old(TotalsExact()) && CarryStats(updates, contents, old(Marks(contents))) ==> TotalsExact()
      ensures old(TotalsExact()) && AllBytesWithStats(updates) ==> TotalsAre(CarryStats(updates, contents, old(Marks(contents))))
    {
      hide Marks, Followed, MaliciousExact, BlockedExact, MaxExact, TotalsExact, TotalsShort, Positions, NonDecreasing, CarryStats,
           AllBytesWithStats, BlocksExact, LatestBlock, Processed;
      var firstPos, lastPos := FirstPos(), (mTail + mSize - 1) % mSize;
      RingIsModulo(mTail, mSize - 1, mSize);
      assert mItemsRing[Ring(firstPos, 0, mSize)] == contents[0];
      assert mItemsRing[Ring(firstPos, mCurItems - 1, mSize)] == contents[mCurItems - 1];
      var firstId, lastId := mItemsRing[firstPos].incrId, mItemsRing[lastPos].incrId;
      changedPos := UpdateAll(updates, firstPos, firstId, lastId);
    }

    method ClearRing()
      requires mItemsRing.Length == mSize
      modifies mItemsRing
      ensures forall i :: 0 <= i < mSize ==> mItemsRing[i] == null
    {
      var i := 0;
      while i < mSize
        invariant 0 <= i <= mSize
        invariant forall j :: 0 <= j < i ==> mItemsRing[j] == null
      {
        mItemsRing[i] := null;
        i := i + 1;
      }
    }

    /** Forgets every connection. The counters are not cleared, so each is exact afterwards only if it was zero. */
    method Reset()
      requires Valid()
      modifies this, mItemsRing
      ensures Valid() && KeepsLast() && contents == [] && given == [] && mAppsStats == map[]
      ensures events == old(events) + [Changed(0)]
      ensures MaliciousExact() <==> old(mNumMalicious) == 0
      ensures InterfacesExact() <==> old(mConnsByIface) == map[]
      ensures BlockedExact() <==> old(mNumBlocked) == 0
      ensures BlocksExact() <==> old(mNumBlocked) == 0
      ensures mLastFirewallBlock == old(mLastFirewallBlock)
      ensures MaxExact() <==> old(mMaxBytes) == 0
      ensures TotalsExact() && dropped == []
    {
      hide CountsInterfaces, BlockedExact, MaliciousExact, MaxExact, InterfacesExact, TotalsExact, BlocksExact, KeepsLast;
      ClearRing();
      mCurItems := 0;
      mUntrackedItems := 0;
      mTail := 0;
      mAppsStats := map[];
      contents, given, dropped := [], [], [];
      events := events + [Changed(mCurItems)];
      NothingHeld();
    }

    /** What the counters of an empty register have to be. */
    lemma NothingHeld()
      requires contents == given == [] && dropped == [] && mAppsStats == map[] && mUntrackedItems == 0
      ensures KeepsLast() && TotalsExact()
      ensures MaliciousExact() <==> mNumMalicious == 0
      ensures InterfacesExact() <==> mConnsByIface == map[]
      ensures BlockedExact() <==> mNumBlocked == 0
      ensures BlocksExact() <==> mNumBlocked == 0
      ensures MaxExact() <==> mMaxBytes == 0
    {
      hide CountsInterfaces, OnInterface, SumBlocked, AddUp, CountBlocks;
      NothingAddsUp();
      NothingBlocked(mNumBlocked);
      SumBlockedNone();
      assert Marks(contents) == [] && dropped + Marks(contents) == [];
      NoInterfaces(mConnsByIface);
    }

    /** The i-th oldest connection. */
    method GetConn(i: int) returns (conn: ConnectionDescriptor?)
      requires Valid()
      ensures if 0 <= i < |contents| then conn == contents[i] else conn == null
    {
      if i < 0 || i >= mCurItems {
        return null;
      }
      RingIsModulo(FirstPos(), i, mSize);
      var pos := (FirstPos() + i) % mSize;
      conn := mItemsRing[pos];
    }

    method GetConnPositionById(incrId: int) returns (position: int)
      requires Valid() && Consecutive(contents)
      ensures if exists i :: 0 <= i < |contents| && contents[i].incrId == incrId
              then 0 <= position < |contents| && contents[position].incrId == incrId
              else position == -1
    {
      if mCurItems <= 0 {
        return -1;
      }
      RingIsModulo(mTail, mSize - 1, mSize);
      var lastPos := (mTail + mSize - 1) % mSize;
      assert mItemsRing[Ring(FirstPos(), 0, mSize)] == contents[0];
      assert mItemsRing[Ring(FirstPos(), mCurItems - 1, mSize)] == contents[mCurItems - 1];
      var first, last := mItemsRing[FirstPos()], mItemsRing[lastPos];
      if incrId < first.incrId || incrId > last.incrId {
        return -1;
      }
      position := incrId - first.incrId;
      assert contents[position].incrId == incrId;
    }

    /** Finds exactly the connection with the given identifier. */
    method GetConnById(incrId: int) returns (conn: ConnectionDescriptor?)
      requires Valid() && Consecutive(contents)
      ensures if conn == null then forall c :: c in contents ==> c.incrId != incrId
              else conn in contents && conn.incrId == incrId
    {
      var pos := GetConnPositionById(incrId);
      if pos < 0 {
        return null;
      }
      conn := GetConn(pos);
    }

    /** After updates a connection that is held has what the last one with statistics says of it, the k-th, or what it had
        before if there is none; and it is counted as blocked if it is. */
    lemma HeldAfter(updates: seq<ConnectionUpdate>, marks: seq<Mark>, i: nat, k: int)
      requires Followed(updates, contents, marks) && BlocksExact() && i < |contents|
      requires -1 <= k && forall j :: k < j < |updates| ==> updates[j].incrId != contents[i].incrId || !updates[j].hasStats
      requires 0 <= k ==> k < |updates| && updates[k].incrId == contents[i].incrId && updates[k].hasStats
      ensures var c := contents[i];
              && c.blockAccounted == c.isBlocked
              && if k < 0 then c.AsMark() == marks[i]
                 else
                   var u := updates[k];
                   && c.isBlocked == u.isBlocked && c.lastSeen == u.lastSeen && c.sentBytes == u.sentBytes
                   && c.rcvdBytes == u.rcvdBytes && c.IsBlacklisted() == (u.blacklistedIp || u.blacklistedHost)
    {
      hide CountBlocks, MarkAfterAll;
      LastUpdateWins(updates, contents[i].incrId, marks[i], k);
      assert Marks(contents)[i] == contents[i].AsMark();
    }

    /** Every connection of `s` had the mark `marks` says and has since followed `updates`. */
    ghost predicate Followed(updates: seq<ConnectionUpdate>, s: seq<ConnectionDescriptor>, marks: seq<Mark>)
      reads s
    {
      |marks| == |s| && Marks(s) == AllFollowed(updates, s, marks)
    }
  }

  /** Consecutive identifiers make the new connections distinct from each other and from those held. */
  lemma FreshIds(s: seq<ConnectionDescriptor>, conns: seq<ConnectionDescriptor>)
    requires Consecutive(s) && ContinuesIds(s, conns)
    ensures forall i, j :: 0 <= i < j < |conns| ==> conns[i] != conns[j]
    ensures forall i :: 0 <= i < |conns| ==> conns[i] !in s
  {
    forall i, k | 0 <= i < |conns| && 0 <= k < |s|
      ensures conns[i] != s[k]
    {
      assert conns[i].incrId == conns[0].incrId + i && s[k].incrId == s[0].incrId + k;
    }
  }

  lemma LastNIs<T>(s: seq<T>, n: nat)
    ensures LastN(s, n) == if |s| > n then s[|s| - n..] else s
  {
  }

  lemma LastNFits<T>(s: seq<T>, n: nat)
    requires |s| <= n
    ensures LastN(s, n) == s
  {
  }

  /** The two ways the code drops connections, from a batch that is too long and from the ring, amount to LastN. */
  lemma LastNTrims<T>(s: seq<T>, given: seq<T>, kept: seq<T>, out: nat, n: nat)
    requires |s| <= n && kept == (if |given| > n then given[|given| - n..] else given)
    requires out == |kept| - Min(n - |s|, |kept|)
    ensures out <= |s| && LastN(s + given, n) == LastN(s + kept, n) == s[out..] + kept
  {
  }

  lemma ReplayTwo(s: seq<ConnectionDescriptor>, e: Event, f: Event)
    ensures ReplayAll(s, []) == Some(s) && ReplayAll(s, [e]) == Replay(s, e)
    ensures Replay(s, e).Some? ==> ReplayAll(s, [e, f]) == Replay(Replay(s, e).value, f)
  {
    assert [e][1..] == [] && [f][1..] == [] && [e, f][1..] == [f];
    if Replay(s, e).Some? {
      var m := Replay(s, e).value;
      assert ReplayAll(s, [e, f]) == ReplayAll(m, [f]);
      assert Replay(m, f).Some? ==> ReplayAll(m, [f]) == ReplayAll(Replay(m, f).value, []);
    }
  }

  lemma ReplayEach(s: seq<ConnectionDescriptor>, out: nat, conns: seq<ConnectionDescriptor>)
    requires out <= |s|
    ensures Replay(s, Removed(0, s[..out])) == Some(s[out..])
    ensures Replay(s[out..], Added(|s| - out, conns)) == Some(s[out..] + conns)
  {
    var rest := s[out..];
    assert s[0..0 + out] == s[..out] && s[..0] + s[0 + out..] == rest;
    assert rest[..|s| - out] == rest && rest[|s| - out..] == [] && rest + conns + [] == rest + conns;
  }

  /** The events of an insertion rebuild the new sequence from the old one. */
  lemma ReplayAdds(s: seq<ConnectionDescriptor>, out: nat, conns: seq<ConnectionDescriptor>)
    requires out <= |s|
    ensures ReplayAll(s, (if s[..out] != [] then [Removed(0, s[..out])] else []) +
                         (if conns != [] then [Added(|s| - out, conns)] else [])) == Some(s[out..] + conns)
  {
    hide ReplayAll, Replay;
    var e, f := Removed(0, s[..out]), Added(|s| - out, conns);
    ReplayEach(s, out, conns);
    ReplayTwo(s, e, f);
    ReplayTwo(s, f, f);
    var none: seq<Event> := [];
    if out == 0 {
      assert s[0..] == s && s[..0] == [] && none + [f] == [f] && none + none == none;
      assert conns == [] ==> s + conns == s;
    } else if conns == [] {
      assert [e] + none == [e] && s[out..] + conns == s[out..];
    } else {
      assert [e] + [f] == [e, f];
    }
  }
}
