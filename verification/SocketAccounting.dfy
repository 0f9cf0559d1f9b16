/** Sockets and connections of a tunnel, as values: what num_open_sockets, the fd sets and the per-protocol counters
    have to do with the connection table. */
module SocketAccounting {
  import opened Words

  const MAX_NUM_SOCKETS := 128
  const NUM_SOCKETS_AFTER_PURGE := 96
  const FD_SETSIZE := 1024

  /** The socket of each table entry. */
  type Socks = seq<Option<nat>>

  function CountOpen(s: Socks): nat {
    if s == [] then 0 else CountOpen(s[..|s| - 1]) + if s[|s| - 1].Some? then 1 else 0
  }

  predicate IsLive(s: Socks, fd: nat) {
    exists i :: 0 <= i < |s| && s[i] == Some(fd)
  }

  predicate Distinct(s: Socks) {
    forall i, j :: 0 <= i < j < |s| && s[i].Some? ==> s[i] != s[j]
  }

  /** num_open_sockets counts the entries that hold a socket and is at most 128; live sockets are pairwise distinct and
      within what select() is given; both fd sets contain only live sockets. */
  ghost predicate Accounted(s: Socks, allFds: set<nat>, writeFds: set<nat>, numOpen: nat, maxFd: nat) {
    && numOpen == CountOpen(s) <= MAX_NUM_SOCKETS
    && Distinct(s)
    && (forall i :: 0 <= i < |s| && s[i].Some? ==> s[i].value < FD_SETSIZE && s[i].value <= maxFd)
    && (forall fd :: fd in allFds || fd in writeFds ==> IsLive(s, fd))
  }

  function Fd(o: Option<nat>): set<nat> {
    if o.Some? then {o.value} else {}
  }

  lemma {:induction false} CountUpdate(s: Socks, i: nat, v: Option<nat>)
    requires i < |s|
    ensures CountOpen(s[i := v]) == CountOpen(s) + (if v.Some? then 1 else 0) - (if s[i].Some? then 1 else 0)
  {
    var t := s[i := v];
    if i == |s| - 1 {
      assert t[..|s| - 1] == s[..|s| - 1];
    } else {
      assert t[..|s| - 1] == s[..|s| - 1][i := v];
      CountUpdate(s[..|s| - 1], i, v);
    }
  }

  lemma {:induction false} CountRemove(s: Socks, i: nat)
    requires i < |s|
    ensures CountOpen(s[..i] + s[i + 1..]) == CountOpen(s) - if s[i].Some? then 1 else 0
  {
    var t := s[..i] + s[i + 1..];
    if i == |s| - 1 {
      assert t == s[..|s| - 1];
    } else {
      assert t[..|t| - 1] == s[..|s| - 1][..i] + s[..|s| - 1][i + 1..];
      CountRemove(s[..|s| - 1], i);
    }
  }

  lemma {:induction false} CountAtLeastOne(s: Socks, i: nat)
    requires i < |s| && s[i].Some?
    ensures CountOpen(s) >= 1
  {
    CountUpdate(s, i, None);
  }

  lemma {:induction false} CountWithinLength(s: Socks)
    ensures CountOpen(s) <= |s|
    ensures (forall i :: 0 <= i < |s| ==> s[i].Some?) ==> CountOpen(s) == |s|
  {
    if s != [] {
      CountWithinLength(s[..|s| - 1]);
    }
  }

  /** open_socket: the fd the kernel hands out is none of the open ones, and is refused above 128 sockets or beyond
      what an fd_set holds. */
  lemma OpenAccounted(s: Socks, allFds: set<nat>, writeFds: set<nat>, numOpen: nat, maxFd: nat, i: nat, fd: nat)
    requires Accounted(s, allFds, writeFds, numOpen, maxFd) && i < |s| && s[i] == None
    requires !IsLive(s, fd) && fd < FD_SETSIZE && numOpen < MAX_NUM_SOCKETS
    ensures Accounted(s[i := Some(fd)], allFds + {fd}, writeFds, numOpen + 1, Max(maxFd, fd))
    ensures fd !in allFds && fd !in writeFds
  {
    var t := s[i := Some(fd)];
    CountUpdate(s, i, Some(fd));
    forall f | f in allFds + {fd} || f in writeFds
      ensures IsLive(t, f)
    {
      StaysLive(s, i, Some(fd), f);
      assert t[i] == Some(fd);
    }
    DistinctUpdate(s, i, fd);
  }

  lemma StaysLive(s: Socks, i: nat, v: Option<nat>, f: nat)
    requires i < |s| && s[i] != Some(f)
    ensures IsLive(s, f) ==> IsLive(s[i := v], f)
  {
    if IsLive(s, f) {
      var j :| 0 <= j < |s| && s[j] == Some(f);
      assert s[i := v][j] == Some(f);
    }
  }

  lemma DistinctUpdate(s: Socks, i: nat, fd: nat)
    requires i < |s| && Distinct(s) && !IsLive(s, fd)
    ensures Distinct(s[i := Some(fd)])
  {
  }

  /** close_socket: the decrement never runs at 0. */
  lemma CloseAccounted(s: Socks, allFds: set<nat>, writeFds: set<nat>, numOpen: nat, maxFd: nat, i: nat)
    requires Accounted(s, allFds, writeFds, numOpen, maxFd) && i < |s| && s[i].Some?
    ensures numOpen > 0
    ensures Accounted(s[i := None], allFds - {s[i].value}, writeFds - {s[i].value}, numOpen - 1, maxFd)
  {
    var fd := s[i].value;
    CountUpdate(s, i, None);
    CountAtLeastOne(s, i);
    forall f | f in allFds - {fd} || f in writeFds - {fd}
      ensures IsLive(s[i := None], f)
    {
      StaysLive(s, i, None, f);
    }
    assert Distinct(s[i := None]);
  }

  /** An entry without a socket may come and go. */
  lemma AppendAccounted(s: Socks, allFds: set<nat>, writeFds: set<nat>, numOpen: nat, maxFd: nat)
    requires Accounted(s, allFds, writeFds, numOpen, maxFd)
    ensures Accounted(s + [None], allFds, writeFds, numOpen, maxFd)
  {
    var t := s + [None];
    assert t[..|s|] == s;
    forall f | f in allFds || f in writeFds
      ensures IsLive(t, f)
    {
      var j :| 0 <= j < |s| && s[j] == Some(f);
      assert t[j] == Some(f);
    }
  }

  lemma RemoveAccounted(s: Socks, allFds: set<nat>, writeFds: set<nat>, numOpen: nat, maxFd: nat, i: nat)
    requires Accounted(s, allFds, writeFds, numOpen, maxFd) && i < |s| && s[i] == None
    ensures Accounted(s[..i] + s[i + 1..], allFds, writeFds, numOpen, maxFd)
  {
    var t := s[..i] + s[i + 1..];
    CountRemove(s, i);
    assert forall j :: 0 <= j < |t| ==> t[j] == s[if j < i then j else j + 1];
    forall f | f in allFds || f in writeFds
      ensures IsLive(t, f)
    {
      var j :| 0 <= j < |s| && s[j] == Some(f);
      assert t[if j < i then j else j - 1] == Some(f);
    }
  }

  /** FD_CLR, and FD_SET on a live socket. */
  lemma SetsAccounted(s: Socks, allFds: set<nat>, writeFds: set<nat>, numOpen: nat, maxFd: nat, i: nat)
    requires Accounted(s, allFds, writeFds, numOpen, maxFd) && i < |s| && s[i].Some?
    ensures var fd := s[i].value;
            && Accounted(s, allFds + {fd}, writeFds, numOpen, maxFd) && Accounted(s, allFds, writeFds + {fd}, numOpen, maxFd)
            && Accounted(s, allFds - {fd}, writeFds, numOpen, maxFd) && Accounted(s, allFds, writeFds - {fd}, numOpen, maxFd)
  {
    assert IsLive(s, s[i].value);
  }

  /** The live sockets, as a set. */
  function LiveFds(s: Socks): set<nat> {
    set i | 0 <= i < |s| && s[i].Some? :: s[i].value
  }

  lemma LiveAppend(t: Socks, last: Option<nat>)
    ensures LiveFds(t + [last]) == LiveFds(t) + Fd(last)
  {
    var s := t + [last];
    assert forall i :: 0 <= i < |t| ==> s[i] == t[i];
    assert s[|t|] == last;
    forall f | f in LiveFds(t) + Fd(last)
      ensures f in LiveFds(s)
    {
      if f in LiveFds(t) {
        var i :| 0 <= i < |t| && t[i] == Some(f);
        assert s[i] == Some(f);
      }
    }
  }

  lemma {:induction false} CountIsCardinality(s: Socks)
    requires Distinct(s)
    ensures CountOpen(s) == |LiveFds(s)|
  {
    if s == [] {
      assert LiveFds(s) == {};
    } else {
      var t, last := s[..|s| - 1], s[|s| - 1];
      assert s == t + [last];
      LastIsNew(s);
      CountIsCardinality(t);
      hide LiveFds, Distinct;
      LiveAppend(t, last);
    }
  }

  lemma LastIsNew(s: Socks)
    requires Distinct(s) && s != []
    ensures Distinct(s[..|s| - 1]) && (s[|s| - 1].Some? ==> s[|s| - 1].value !in LiveFds(s[..|s| - 1]))
  {
    var t := s[..|s| - 1];
    assert forall i :: 0 <= i < |t| ==> t[i] == s[i];
  }

  /** The order of the table does not matter. */
  lemma OrderDoesNotMatter(s: Socks, t: Socks, allFds: set<nat>, writeFds: set<nat>, numOpen: nat, maxFd: nat)
    requires Accounted(s, allFds, writeFds, numOpen, maxFd) && Distinct(t)
    requires forall i :: 0 <= i < |s| ==> s[i] in t
    requires forall i :: 0 <= i < |t| ==> t[i] in s
    ensures Accounted(t, allFds, writeFds, numOpen, maxFd)
  {
    CountIsCardinality(s);
    CountIsCardinality(t);
    assert LiveFds(s) == LiveFds(t) by {
      SameLive(s, t);
      SameLive(t, s);
    }
    forall f | f in allFds || f in writeFds
      ensures IsLive(t, f)
    {
      var j :| 0 <= j < |s| && s[j] == Some(f);
      var k :| 0 <= k < |t| && t[k] == s[j];
    }
  }

  lemma SameLive(s: Socks, t: Socks)
    requires forall i :: 0 <= i < |s| ==> s[i] in t
    ensures LiveFds(s) <= LiveFds(t)
  {
    forall f | f in LiveFds(s)
      ensures f in LiveFds(t)
    {
      var i :| 0 <= i < |s| && s[i] == Some(f);
      var k :| 0 <= k < |t| && t[k] == s[i];
    }
  }

  // ------------------------------------------------------------------ what a handler may do to the fd sets

  predicate Has(fds: set<nat>, sock: Option<nat>) {
    sock.Some? && sock.value in fds
  }

  /** The sets agree except on `m`. */
  predicate SameBut(a: set<nat>, b: set<nat>, m: set<nat>) {
    a - m == b - m
  }

  /** A handler keeps its connection's socket or gives it up, and moves no other socket in or out of the fd sets. */
  predicate Touched(s0: Option<nat>, s1: Option<nat>, all0: set<nat>, all1: set<nat>, write0: set<nat>, write1: set<nat>) {
    && (s1 == s0 || s1 == None)
    && SameBut(all0, all1, Fd(s0)) && SameBut(write0, write1, Fd(s0))
  }

  lemma TouchedNot(s0: Option<nat>, all0: set<nat>, write0: set<nat>)
    ensures Touched(s0, s0, all0, all0, write0, write0)
  {
  }

  lemma TouchedClosed(s0: Option<nat>, all0: set<nat>, write0: set<nat>)
    ensures Touched(s0, None, all0, all0 - Fd(s0), write0, write0 - Fd(s0))
  {
  }

  lemma TouchedSets(s0: Option<nat>, all0: set<nat>, write0: set<nat>)
    ensures Touched(s0, s0, all0, all0 + Fd(s0), write0, write0) && Touched(s0, s0, all0, all0 - Fd(s0), write0, write0)
    ensures Touched(s0, s0, all0, all0, write0, write0 + Fd(s0)) && Touched(s0, s0, all0, all0, write0, write0 - Fd(s0))
  {
  }

  lemma TouchedTwice(s0: Option<nat>, s1: Option<nat>, s2: Option<nat>, all0: set<nat>, all1: set<nat>, all2: set<nat>,
                     write0: set<nat>, write1: set<nat>, write2: set<nat>)
    requires Touched(s0, s1, all0, all1, write0, write1) && Touched(s1, s2, all1, all2, write1, write2)
    ensures Touched(s0, s2, all0, all2, write0, write2)
  {
    SameButTwice(all0, all1, all2, Fd(s0), Fd(s1));
    SameButTwice(write0, write1, write2, Fd(s0), Fd(s1));
  }

  lemma SameButTwice(a: set<nat>, b: set<nat>, c: set<nat>, m: set<nat>, n: set<nat>)
    requires a - m == b - m && b - n == c - n && n <= m
    ensures a - m == c - m
  {
    forall x
      ensures x in a - m <==> x in c - m
    {
      assert x in a - m <==> x in b - m;
      assert x in b - n <==> x in c - n;
    }
  }

  /** A handler that may open socket `fd` for its connection. */
  predicate Opened(s0: Option<nat>, fd: Option<nat>, s1: Option<nat>, all0: set<nat>, all1: set<nat>,
                   write0: set<nat>, write1: set<nat>) {
    && (s1 == s0 || s1 == None || (s0 == None && s1 == fd))
    && SameBut(all0, all1, Fd(s0) + Fd(fd)) && SameBut(write0, write1, Fd(s0) + Fd(fd))
  }

  lemma TouchedIsOpened(s0: Option<nat>, fd: Option<nat>, s1: Option<nat>, all0: set<nat>, all1: set<nat>,
                        write0: set<nat>, write1: set<nat>)
    requires Touched(s0, s1, all0, all1, write0, write1)
    ensures Opened(s0, fd, s1, all0, all1, write0, write1)
  {
    SameButMore(all0, all1, Fd(s0), Fd(fd));
    SameButMore(write0, write1, Fd(s0), Fd(fd));
  }

  lemma SameButMore(a: set<nat>, b: set<nat>, m: set<nat>, n: set<nat>)
    requires a - m == b - m
    ensures a - (m + n) == b - (m + n)
  {
    forall x
      ensures x in a - (m + n) <==> x in b - (m + n)
    {
      assert x in a - m <==> x in b - m;
    }
  }

  /** Opening `fd`, and then what a handler does with it. */
  lemma OpenedThenTouched(fd: nat, s2: Option<nat>, all0: set<nat>, all2: set<nat>, write0: set<nat>, write2: set<nat>)
    requires Touched(Some(fd), s2, all0 + {fd}, all2, write0, write2)
    ensures Opened(None, Some(fd), s2, all0, all2, write0, write2)
  {
    assert Fd(None) + Fd(Some(fd)) == {fd} && Fd(Some(fd)) == {fd};
    assert all0 + {fd} - {fd} == all0 - {fd};
  }

  lemma OpenedThenClosed(s0: Option<nat>, fd: Option<nat>, s1: Option<nat>, s2: Option<nat>, all0: set<nat>, all1: set<nat>,
                         all2: set<nat>, write0: set<nat>, write1: set<nat>, write2: set<nat>)
    requires Opened(s0, fd, s1, all0, all1, write0, write1) && Touched(s1, s2, all1, all2, write1, write2)
    ensures Opened(s0, fd, s2, all0, all2, write0, write2)
  {
    SameButTwice(all0, all1, all2, Fd(s0) + Fd(fd), Fd(s1));
    SameButTwice(write0, write1, write2, Fd(s0) + Fd(fd), Fd(s1));
  }
}
