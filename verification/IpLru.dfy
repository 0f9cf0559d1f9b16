/** ip_lru.c: a bounded IP-to-host cache over uthash, an insertion-ordered map. The front is the oldest entry. */
module IpLru {
  import opened Words

  type Host = string

  datatype Entry<K> = Entry(key: K, host: Host)

  datatype Op<K> = Add(key: K, host: Host) | Find(key: K)

  // ------------------------------------------------------------------ insertion-ordered maps

  function Keys<K>(s: seq<Entry<K>>): set<K> {
    set i | 0 <= i < |s| :: s[i].key
  }

  ghost predicate Unique<K>(s: seq<Entry<K>>) {
    forall i, j :: 0 <= i < j < |s| ==> s[i].key != s[j].key
  }

  /** HASH_FIND: the position of `k`, or the length of `s` when it is absent. */
  function Position<K(==)>(s: seq<Entry<K>>, k: K): (i: nat)
    ensures i <= |s| && (i < |s| ==> s[i].key == k)
    ensures forall j :: 0 <= j < i ==> s[j].key != k
    ensures i < |s| <==> k in Keys(s)
  {
    if s == [] then 0 else if s[0].key == k then 0 else
      assert Keys(s) == {s[0].key} + Keys(s[1..]);
      1 + Position(s[1..], k)
  }

  function Lookup<K(==)>(s: seq<Entry<K>>, k: K): Option<Host> {
    var i := Position(s, k);
    if i < |s| then Some(s[i].host) else None
  }

  /** The entries whose key is in `keys`, in order. */
  function Keep<K(==)>(s: seq<Entry<K>>, keys: set<K>): seq<Entry<K>> {
    if s == [] then []
    else Keep(s[..|s| - 1], keys) + if s[|s| - 1].key in keys then [s[|s| - 1]] else []
  }

  function Without<K(==)>(s: seq<Entry<K>>, k: K): seq<Entry<K>> {
    Keep(s, Keys(s) - {k})
  }

  // ------------------------------------------------------------------ what each operation does to the map

  function AddTo<K(==)>(s: seq<Entry<K>>, maxSize: nat, k: K, host: Host): seq<Entry<K>> {
    var t := Without(s, k) + [Entry(k, host)];
    if |t| > maxSize && k !in Keys(s) then t[1..] else t
  }

  function FindIn<K(==)>(s: seq<Entry<K>>, k: K): seq<Entry<K>> {
    var i := Position(s, k);
    if i < |s| then Without(s, k) + [s[i]] else s
  }

  function Apply<K(==)>(s: seq<Entry<K>>, maxSize: nat, op: Op<K>): seq<Entry<K>> {
    match op
    case Add(k, host) => AddTo(s, maxSize, k, host)
    case Find(k) => FindIn(s, k)
  }

  /** The cache of size `maxSize` after the operations `ops`. */
  function Run<K(==)>(ops: seq<Op<K>>, maxSize: nat): seq<Entry<K>> {
    if ops == [] then [] else Apply(Run(ops[..|ops| - 1], maxSize), maxSize, ops[|ops| - 1])
  }

  /** What an unbounded map would answer: the host of the latest add for `k`. */
  function LatestAdd<K(==)>(ops: seq<Op<K>>, k: K): Option<Host> {
    if ops == [] then None
    else
      var op := ops[|ops| - 1];
      if op.Add? && op.key == k then Some(op.host) else LatestAdd(ops[..|ops| - 1], k)
  }

  // ------------------------------------------------------------------ algebra of Keep

  lemma {:induction false} KeepMembers<K>(s: seq<Entry<K>>, a: set<K>)
    ensures forall e :: e in Keep(s, a) <==> e in s && e.key in a
    ensures |Keep(s, a)| <= |s|
  {
    if s != [] {
      KeepMembers(s[..|s| - 1], a);
      assert s == s[..|s| - 1] + [s[|s| - 1]];
    }
  }

  lemma {:induction false} KeepConcat<K>(s: seq<Entry<K>>, t: seq<Entry<K>>, keys: set<K>)
    ensures Keep(s + t, keys) == Keep(s, keys) + Keep(t, keys)
  {
    if t == [] {
      assert s + t == s;
    } else {
      assert (s + t)[..|s + t| - 1] == s + t[..|t| - 1];
      KeepConcat(s, t[..|t| - 1], keys);
    }
  }

  lemma {:induction false} KeepKeep<K>(s: seq<Entry<K>>, a: set<K>, b: set<K>)
    ensures Keep(Keep(s, a), b) == Keep(s, a * b)
  {
    if s != [] {
      KeepKeep(s[..|s| - 1], a, b);
      var last := [s[|s| - 1]];
      KeepConcat(Keep(s[..|s| - 1], a), if last[0].key in a then last else [], b);
      assert last[..0] == [];
      assert Keep(last, b) == if last[0].key in b then last else [];
    }
  }

  /** Keep depends only on the keys that occur. */
  lemma {:induction false} KeepSame<K>(s: seq<Entry<K>>, a: set<K>, b: set<K>)
    requires forall i :: 0 <= i < |s| ==> (s[i].key in a <==> s[i].key in b)
    ensures Keep(s, a) == Keep(s, b)
  {
    if s != [] {
      KeepSame(s[..|s| - 1], a, b);
    }
  }

  lemma {:induction false} KeepAll<K>(s: seq<Entry<K>>, a: set<K>)
    requires forall i :: 0 <= i < |s| ==> s[i].key in a
    ensures Keep(s, a) == s
  {
    if s != [] {
      KeepAll(s[..|s| - 1], a);
    }
  }

  lemma {:induction false} KeepNone<K>(s: seq<Entry<K>>, a: set<K>)
    requires forall i :: 0 <= i < |s| ==> s[i].key !in a
    ensures Keep(s, a) == []
  {
    if s != [] {
      KeepNone(s[..|s| - 1], a);
    }
  }

  lemma KeepMiddle<K>(a: seq<Entry<K>>, e: Entry<K>, b: seq<Entry<K>>, keys: set<K>)
    requires Keys(a) <= keys && Keys(b) <= keys && e.key !in keys
    ensures Keep(a + [e] + b, keys) == a + b
  {
    KeepConcat(a + [e], b, keys);
    KeepConcat(a, [e], keys);
    KeepNone([e], keys);
    KeepAll(a, keys);
    KeepAll(b, keys);
  }

  /** With unique keys, keeping all keys but the one at `i` deletes exactly that entry: HASH_DELETE. */
  lemma WithoutIsDelete<K>(s: seq<Entry<K>>, i: nat)
    requires Unique(s) && i < |s|
    ensures Without(s, s[i].key) == s[..i] + s[i + 1..]
  {
    var keys := Keys(s) - {s[i].key};
    assert forall j :: 0 <= j < |s| && j != i ==> s[j].key in Keys(s) && s[j].key != s[i].key;
    KeepMiddle(s[..i], s[i], s[i + 1..], keys);
    assert s == s[..i] + [s[i]] + s[i + 1..];
  }

  lemma WithoutAbsent<K>(s: seq<Entry<K>>, k: K)
    requires k !in Keys(s)
    ensures Without(s, k) == s
  {
    KeepAll(s, Keys(s) - {k});
  }

  lemma KeysAppend<K>(s: seq<Entry<K>>, e: Entry<K>)
    ensures Keys(s + [e]) == Keys(s) + {e.key}
    ensures Unique(s + [e]) <==> Unique(s) && e.key !in Keys(s)
  {
    var t := s + [e];
    assert forall i :: 0 <= i < |s| ==> t[i] == s[i];
    assert t[|s|] == e;
    assert forall i :: 0 <= i < |s| ==> s[i].key in Keys(t);
  }

  lemma {:induction false} KeepKeys<K>(s: seq<Entry<K>>, a: set<K>)
    ensures Keys(Keep(s, a)) == Keys(s) * a
    ensures Unique(s) ==> Unique(Keep(s, a))
  {
    if s != [] {
      var u, e := s[..|s| - 1], s[|s| - 1];
      assert s == u + [e];
      KeysAppend(u, e);
      KeepKeys(u, a);
      if e.key in a {
        KeysAppend(Keep(u, a), e);
        assert Keep(s, a) == Keep(u, a) + [e];
      } else {
        assert Keep(s, a) == Keep(u, a);
        assert Keys(s) * a == Keys(u) * a;
      }
    }
  }

  /** A unique map after an operation is unique, and its keys and size are as expected. */
  lemma ReinsertKeepsUnique<K>(s: seq<Entry<K>>, k: K, host: Host)
    requires Unique(s)
    ensures var t := Without(s, k) + [Entry(k, host)];
            && Unique(t) && Keys(t) == Keys(s) + {k}
            && |t| == |s| + if k in Keys(s) then 0 else 1
  {
    KeepKeys(s, Keys(s) - {k});
    KeysAppend(Without(s, k), Entry(k, host));
    if k in Keys(s) {
      WithoutIsDelete(s, Position(s, k));
    } else {
      WithoutAbsent(s, k);
    }
  }

  // ------------------------------------------------------------------ inclusion

  /** `small` is what `big` keeps of its keys, in the same order of recency and with the same hosts. */
  ghost predicate Included<K>(small: seq<Entry<K>>, big: seq<Entry<K>>) {
    Unique(small) && Unique(big) && small == Keep(big, Keys(small))
  }

  lemma IncludedLookup<K>(small: seq<Entry<K>>, big: seq<Entry<K>>, k: K)
    requires Included(small, big) && k in Keys(small)
    ensures k in Keys(big) && small[Position(small, k)] == big[Position(big, k)]
  {
    KeepMembers(big, Keys(small));
    var e := small[Position(small, k)];
    assert e in big;
    var j :| 0 <= j < |big| && big[j] == e;
  }

  lemma IncludedReinsert<K>(small: seq<Entry<K>>, big: seq<Entry<K>>, k: K, host: Host)
    requires Included(small, big)
    ensures Included(Without(small, k) + [Entry(k, host)], Without(big, k) + [Entry(k, host)])
  {
    var e := [Entry(k, host)];
    var a, b := Keys(small), Keys(big);
    var x, y := Without(small, k) + e, Without(big, k) + e;
    ReinsertKeepsUnique(small, k, host);
    ReinsertKeepsUnique(big, k, host);
    KeepConcat(Without(big, k), e, a + {k});
    KeepKeep(big, b - {k}, a + {k});
    KeepKeep(big, a, a - {k});
    KeepSame(big, (b - {k}) * (a + {k}), a * (a - {k}));
    assert e[..0] == [];
  }

  lemma IncludedEvictSmall<K>(small: seq<Entry<K>>, big: seq<Entry<K>>)
    requires Included(small, big) && small != []
    ensures Included(small[1..], big) && small[0].key !in Keys(small[1..])
  {
    var a, k := Keys(small), small[0].key;
    WithoutIsDelete(small, 0);
    KeepKeep(big, a, a - {k});
    assert Keys(small[1..]) == a - {k};
    KeepSame(big, a * (a - {k}), a - {k});
  }

  lemma IncludedEvictBig<K>(small: seq<Entry<K>>, big: seq<Entry<K>>)
    requires Included(small, big) && big != [] && big[0].key !in Keys(small)
    ensures Included(small, big[1..])
  {
    assert big == [big[0]] + big[1..];
    KeepConcat([big[0]], big[1..], Keys(small));
    KeepNone([big[0]], Keys(small));
  }

  /** The oldest entry of the larger cache, when the smaller has it, is the smaller's oldest too. */
  lemma OldestIsOldest<K>(small: seq<Entry<K>>, big: seq<Entry<K>>)
    requires Included(small, big) && big != [] && big[0].key in Keys(small)
    ensures small != [] && small[0] == big[0]
  {
    assert big == [big[0]] + big[1..];
    KeepConcat([big[0]], big[1..], Keys(small));
    KeepAll([big[0]], Keys(small));
  }

  /** Two caches of sizes m <= n after the same operations. */
  ghost predicate Stacked<K>(small: seq<Entry<K>>, m: nat, big: seq<Entry<K>>, n: nat) {
    Included(small, big) && |small| <= m && |big| <= n && (|small| == m || small == big)
  }

  /** Moving an entry that only the larger cache has does not disturb the inclusion. */
  lemma IncludedMoveBig<K>(small: seq<Entry<K>>, big: seq<Entry<K>>, k: K, host: Host)
    requires Included(small, big) && k !in Keys(small)
    ensures Included(small, Without(big, k) + [Entry(k, host)])
  {
    var e, a, b := [Entry(k, host)], Keys(small), Keys(big);
    ReinsertKeepsUnique(big, k, host);
    KeepConcat(Without(big, k), e, a);
    KeepKeep(big, b - {k}, a);
    KeepSame(big, (b - {k}) * a, a);
    KeepNone(e, a);
  }

  lemma StackedFind<K>(small: seq<Entry<K>>, m: nat, big: seq<Entry<K>>, n: nat, k: K)
    requires m <= n && Stacked(small, m, big, n)
    ensures Stacked(FindIn(small, k), m, FindIn(big, k), n)
  {
    hide Keep;
    var i, j := Position(small, k), Position(big, k);
    if i < |small| {
      IncludedLookup(small, big, k);
      ReinsertKeepsUnique(big, k, big[j].host);
      ReinsertKeepsUnique(small, k, big[j].host);
      IncludedReinsert(small, big, k, big[j].host);
    } else if j < |big| {
      ReinsertKeepsUnique(big, k, big[j].host);
      IncludedMoveBig(small, big, k, big[j].host);
    }
  }

  lemma StackedAdd<K>(small: seq<Entry<K>>, m: nat, big: seq<Entry<K>>, n: nat, k: K, host: Host)
    requires m <= n && Stacked(small, m, big, n)
    ensures Stacked(AddTo(small, m, k, host), m, AddTo(big, n, k, host), n)
  {
    var x, y := Without(small, k) + [Entry(k, host)], Without(big, k) + [Entry(k, host)];
    ReinsertKeepsUnique(small, k, host);
    ReinsertKeepsUnique(big, k, host);
    IncludedReinsert(small, big, k, host);
    if k in Keys(small) {
      IncludedLookup(small, big, k);
    } else if |x| > m {
      IncludedEvictSmall(x, y);
      if |y| > n && k !in Keys(big) {
        if y[0].key in Keys(x) {
          OldestIsOldest(x, y);
        }
        assert Keys(x[1..]) <= Keys(x);
        IncludedEvictBig(x[1..], y);
      }
    }
  }

  /** The smaller cache's recency order is a subsequence of the larger's, with equal hosts: every hit in the
      smaller cache is the same hit in the larger. */
  lemma {:induction false} LruInclusion<K>(ops: seq<Op<K>>, m: nat, n: nat)
    requires m <= n
    ensures Stacked(Run(ops, m), m, Run(ops, n), n)
    ensures forall k :: Lookup(Run(ops, m), k).Some? ==> Lookup(Run(ops, n), k) == Lookup(Run(ops, m), k)
  {
    if ops != [] {
      var before := ops[..|ops| - 1];
      LruInclusion(before, m, n);
      match ops[|ops| - 1] {
        case Add(k, host) => StackedAdd(Run(before, m), m, Run(before, n), n, k, host);
        case Find(k) => StackedFind(Run(before, m), m, Run(before, n), n, k);
      }
    }
    forall k | Lookup(Run(ops, m), k).Some?
      ensures Lookup(Run(ops, n), k) == Lookup(Run(ops, m), k)
    {
      IncludedLookup(Run(ops, m), Run(ops, n), k);
    }
  }

  // ------------------------------------------------------------------ agreement with the unbounded map

  ghost predicate AgreesWith<K>(s: seq<Entry<K>>, ops: seq<Op<K>>) {
    forall e :: e in s ==> LatestAdd(ops, e.key) == Some(e.host)
  }

  lemma LatestAddAppend<K>(before: seq<Op<K>>, op: Op<K>, k: K)
    ensures LatestAdd(before + [op], k) == if op.Add? && op.key == k then Some(op.host) else LatestAdd(before, k)
  {
    assert (before + [op])[..|before|] == before;
  }

  /** The entries after an operation: those of other keys were there, the touched key has the host expected. */
  lemma ApplyMember<K>(s: seq<Entry<K>>, maxSize: nat, op: Op<K>, x: Entry<K>)
    requires x in Apply(s, maxSize, op)
    ensures if x.key == op.key && op.Add? then x.host == op.host else x in s
  {
    hide Position;
    hide Keep;
    KeepMembers(s, Keys(s) - {op.key});
    var w := Without(s, op.key);
    var i := Position(s, op.key);
    if op.Find? && i == |s| {
      assert x in s;
    } else {
      var e := if op.Add? then Entry(op.key, op.host) else s[i];
      assert x in w + [e];
      assert x in w || x == e;
    }
  }

  lemma AgreesAfter<K>(s: seq<Entry<K>>, maxSize: nat, before: seq<Op<K>>, op: Op<K>)
    requires Unique(s) && AgreesWith(s, before)
    ensures AgreesWith(Apply(s, maxSize, op), before + [op])
  {
    forall x | x in Apply(s, maxSize, op)
      ensures LatestAdd(before + [op], x.key) == Some(x.host)
    {
      LatestAddAppend(before, op, x.key);
      ApplyMember(s, maxSize, op, x);
    }
  }

  lemma UniqueAfter<K>(s: seq<Entry<K>>, maxSize: nat, op: Op<K>)
    requires Unique(s) && |s| <= maxSize
    ensures Unique(Apply(s, maxSize, op)) && |s| <= |Apply(s, maxSize, op)| <= Min(maxSize, |s| + 1)
    ensures |s| < maxSize || op.Find? ==>
              Keys(Apply(s, maxSize, op)) == Keys(s) + if op.Add? then {op.key} else {}
  {
    var i := Position(s, op.key);
    ReinsertKeepsUnique(s, op.key, if op.Add? then op.host else if i < |s| then s[i].host else "");
  }

  // ------------------------------------------------------------------ what a bounded cache holds, told from the operations

  /** An operation touches its key if it is an add, or a find that hits. */
  predicate Touches<K(==)>(before: seq<Op<K>>, maxSize: nat, op: Op<K>)
    decreases |before|, 2
  {
    op.Add? || Held(before, maxSize, op.key)
  }

  /** `k` was touched, and fewer than `maxSize` other keys were since. */
  predicate Held<K(==)>(ops: seq<Op<K>>, maxSize: nat, k: K)
    decreases |ops|, 1
  {
    var since := Since(ops, maxSize, k);
    since.Some? && |since.value| < maxSize
  }

  /** The keys touched since `k` was touched last, if it ever was. */
  function Since<K(==)>(ops: seq<Op<K>>, maxSize: nat, k: K): Option<set<K>>
    decreases |ops|, 0
  {
    if ops == [] then None
    else
      var before, op := ops[..|ops| - 1], ops[|ops| - 1];
      if !Touches(before, maxSize, op) then Since(before, maxSize, k)
      else if op.key == k then Some({})
      else
        match Since(before, maxSize, k)
        case None => None
        case Some(keys) => Some(keys + {op.key})
  }

  /** The keys of the entries behind that of `k`. */
  function After<K(==)>(s: seq<Entry<K>>, k: K): set<K> {
    if s == [] || s[|s| - 1].key == k then {} else After(s[..|s| - 1], k) + {s[|s| - 1].key}
  }

  lemma AfterAppend<K>(s: seq<Entry<K>>, e: Entry<K>, k: K)
    ensures After(s + [e], k) == if e.key == k then {} else After(s, k) + {e.key}
  {
    assert (s + [e])[..|s|] == s;
  }

  lemma {:induction false} AfterBounds<K>(s: seq<Entry<K>>, k: K)
    ensures After(s, k) <= Keys(s) - {k}
  {
    if s != [] {
      var u, e := s[..|s| - 1], s[|s| - 1];
      assert s == u + [e];
      KeysAppend(u, e);
      AfterBounds(u, k);
    }
  }

  lemma {:induction false} AfterKeep<K>(s: seq<Entry<K>>, keys: set<K>, k: K)
    requires k in keys
    ensures After(Keep(s, keys), k) == After(s, k) * keys
  {
    if s != [] {
      var u, e := s[..|s| - 1], s[|s| - 1];
      AfterKeep(u, keys, k);
      if e.key in keys {
        AfterAppend(Keep(u, keys), e, k);
        assert (After(u, k) + {e.key}) * keys == After(u, k) * keys + {e.key};
      } else {
        assert Keep(s, keys) == Keep(u, keys);
        assert (After(u, k) + {e.key}) * keys == After(u, k) * keys;
      }
    }
  }

  /** Behind the first entry are all others; the order of these does not depend on it. */
  lemma {:induction false} AfterFirst<K>(s: seq<Entry<K>>, k: K)
    requires Unique(s) && s != []
    ensures if k == s[0].key then After(s, k) == Keys(s[1..]) else k in Keys(s) ==> After(s[1..], k) == After(s, k)
  {
    if |s| > 1 {
      var u, e := s[..|s| - 1], s[|s| - 1];
      assert s == u + [e] && s[1..] == u[1..] + [e];
      KeysAppend(u, e);
      KeysAppend(u[1..], e);
      AfterAppend(u, e, k);
      AfterAppend(u[1..], e, k);
      AfterFirst(u, k);
    }
  }

  lemma {:induction false} KeysCount<K>(s: seq<Entry<K>>)
    ensures |Keys(s)| <= |s| && (Unique(s) ==> |Keys(s)| == |s|)
  {
    if s != [] {
      var u, e := s[..|s| - 1], s[|s| - 1];
      assert s == u + [e];
      KeysAppend(u, e);
      KeysCount(u);
    }
  }

  lemma MoreKeys<K>(a: set<K>, b: set<K>)
    requires a <= b
    ensures |a| <= |b|
  {
    assert b == a + (b - a);
  }

  /** The cache agrees with what the operations say of `k`. */
  ghost predicate Follows<K>(s: seq<Entry<K>>, ops: seq<Op<K>>, maxSize: nat, k: K) {
    match Since(ops, maxSize, k)
    case None => k !in Keys(s)
    case Some(keys) => if k in Keys(s) then keys == After(s, k) else |keys| >= maxSize
  }

  /** Then it holds `k` exactly if they say so. */
  lemma FollowsHolds<K>(s: seq<Entry<K>>, ops: seq<Op<K>>, maxSize: nat, k: K)
    requires |s| <= maxSize && Follows(s, ops, maxSize, k)
    ensures k in Keys(s) <==> Held(ops, maxSize, k)
  {
    if k in Keys(s) {
      AfterBounds(s, k);
      KeysCount(s);
      MoreKeys(After(s, k), Keys(s) - {k});
    }
  }

  /** A touched key is the last of the cache, behind all others. */
  lemma AfterTouch<K>(s: seq<Entry<K>>, a: K, host: Host, k: K)
    requires Unique(s) && k in Keys(s) + {a}
    ensures After(Without(s, a) + [Entry(a, host)], k) == if k == a then {} else After(s, k) + {a}
  {
    AfterAppend(Without(s, a), Entry(a, host), k);
    if k != a {
      AfterKeep(s, Keys(s) - {a}, k);
      AfterBounds(s, k);
      assert After(s, k) * (Keys(s) - {a}) + {a} == After(s, k) + {a};
    }
  }

  /** What the operations say of `k` after one that touches `a`. */
  lemma SinceTouch<K>(before: seq<Op<K>>, maxSize: nat, op: Op<K>, k: K)
    requires Touches(before, maxSize, op)
    ensures Since(before + [op], maxSize, k) ==
            if op.key == k then Some({})
            else if Since(before, maxSize, k).None? then None
            else Some(Since(before, maxSize, k).value + {op.key})
  {
    assert (before + [op])[..|before|] == before;
  }

  lemma SinceMiss<K>(before: seq<Op<K>>, maxSize: nat, op: Op<K>, k: K)
    requires !Touches(before, maxSize, op)
    ensures Since(before + [op], maxSize, k) == Since(before, maxSize, k)
  {
    assert (before + [op])[..|before|] == before;
  }

  /** The touched key moves, or is added, to the end, and nothing is evicted yet. */
  lemma TouchFollows<K>(s: seq<Entry<K>>, before: seq<Op<K>>, maxSize: nat, op: Op<K>, host: Host, k: K)
    requires Unique(s) && Touches(before, maxSize, op) && Follows(s, before, maxSize, k)
    ensures Follows(Without(s, op.key) + [Entry(op.key, host)], before + [op], maxSize, k)
  {
    SinceTouch(before, maxSize, op, k);
    ReinsertKeepsUnique(s, op.key, host);
    hide Keep, Since, After, Touches;
    if k in Keys(s) + {op.key} {
      AfterTouch(s, op.key, host, k);
    } else if Since(before, maxSize, k).Some? {
      MoreKeys(Since(before, maxSize, k).value, Since(before, maxSize, k).value + {op.key});
    }
  }

  /** The oldest entry of a cache one too large is evicted: `maxSize` others were touched since. */
  lemma EvictFollows<K>(t: seq<Entry<K>>, ops: seq<Op<K>>, maxSize: nat, k: K)
    requires Unique(t) && |t| == maxSize + 1 && Follows(t, ops, maxSize, k)
    ensures Follows(t[1..], ops, maxSize, k)
  {
    hide Since, After;
    AfterFirst(t, k);
    KeysCount(t[1..]);
    assert t == [t[0]] + t[1..];
    assert k in Keys(t) <==> k == t[0].key || k in Keys(t[1..]);
  }

  lemma ApplyFollows<K>(s: seq<Entry<K>>, before: seq<Op<K>>, maxSize: nat, op: Op<K>, k: K)
    requires Unique(s) && |s| <= maxSize && Follows(s, before, maxSize, k) && Follows(s, before, maxSize, op.key)
    ensures Follows(Apply(s, maxSize, op), before + [op], maxSize, k)
  {
    FollowsHolds(s, before, maxSize, op.key);
    hide Keep, Since, After, Held, Follows;
    var i := Position(s, op.key);
    if op.Find? && i == |s| {
      SinceMiss(before, maxSize, op, k);
      assert Follows(s, before + [op], maxSize, k) by { SameSince(s, before, before + [op], maxSize, k); }
    } else {
      var host := if op.Add? then op.host else s[i].host;
      TouchFollows(s, before, maxSize, op, host, k);
      ReinsertKeepsUnique(s, op.key, host);
      if op.Add? && i == |s| && |s| == maxSize {
        EvictFollows(Without(s, op.key) + [Entry(op.key, host)], before + [op], maxSize, k);
      }
    }
  }

  lemma SameSince<K>(s: seq<Entry<K>>, ops: seq<Op<K>>, ops1: seq<Op<K>>, maxSize: nat, k: K)
    requires Follows(s, ops, maxSize, k) && Since(ops1, maxSize, k) == Since(ops, maxSize, k)
    ensures Follows(s, ops1, maxSize, k)
  {
  }

  lemma {:induction false} RunFollows<K>(ops: seq<Op<K>>, maxSize: nat, k: K)
    ensures Unique(Run(ops, maxSize)) && |Run(ops, maxSize)| <= maxSize
    ensures Follows(Run(ops, maxSize), ops, maxSize, k)
  {
    if ops == [] {
      assert k !in Keys<K>([]);
    } else {
      var before, op := ops[..|ops| - 1], ops[|ops| - 1];
      assert ops == before + [op];
      RunFollows(before, maxSize, k);
      RunFollows(before, maxSize, op.key);
      hide Follows, Apply;
      UniqueAfter(Run(before, maxSize), maxSize, op);
      ApplyFollows(Run(before, maxSize), before, maxSize, op, k);
    }
  }

  /** A hit returns the host of the latest add; and a key hits if and only if it was added, and since it was last added
      or hit fewer than `maxSize` other keys were. */
  lemma {:induction false} HitIsLatestAdd<K>(ops: seq<Op<K>>, maxSize: nat)
    ensures Unique(Run(ops, maxSize)) && |Run(ops, maxSize)| <= Min(maxSize, |ops|)
    ensures AgreesWith(Run(ops, maxSize), ops)
    ensures forall k :: k in Keys(Run(ops, maxSize)) <==> Held(ops, maxSize, k)
  {
    if ops != [] {
      var before, op := ops[..|ops| - 1], ops[|ops| - 1];
      assert ops == before + [op];
      HitIsLatestAdd(before, maxSize);
      AgreesAfter(Run(before, maxSize), maxSize, before, op);
      UniqueAfter(Run(before, maxSize), maxSize, op);
    }
    forall k
      ensures k in Keys(Run(ops, maxSize)) <==> Held(ops, maxSize, k)
    {
      RunFollows(ops, maxSize, k);
      FollowsHolds(Run(ops, maxSize), ops, maxSize, k);
    }
  }

  /** The keys added. */
  function Added<K(==)>(ops: seq<Op<K>>): set<K> {
    set i | 0 <= i < |ops| && ops[i].Add? :: ops[i].key
  }

  lemma AddedAppend<K>(before: seq<Op<K>>, op: Op<K>)
    ensures Added(before + [op]) == Added(before) + if op.Add? then {op.key} else {}
  {
    var t := before + [op];
    assert forall i :: 0 <= i < |before| ==> t[i] == before[i];
    assert t[|before|] == op;
    assert forall k :: k in Added(before) ==> k in Added(t);
  }

  /** Only keys that were added are touched. */
  lemma {:induction false} SinceAdded<K>(ops: seq<Op<K>>, maxSize: nat, k: K)
    ensures k in Added(ops) <==> LatestAdd(ops, k).Some?
    ensures Since(ops, maxSize, k).Some? <==> k in Added(ops)
    ensures Since(ops, maxSize, k).Some? ==> Since(ops, maxSize, k).value <= Added(ops) - {k}
  {
    if ops != [] {
      var before, op := ops[..|ops| - 1], ops[|ops| - 1];
      assert ops == before + [op];
      AddedAppend(before, op);
      SinceAdded(before, maxSize, k);
      SinceAdded(before, maxSize, op.key);
      if Touches(before, maxSize, op) {
        SinceTouch(before, maxSize, op, k);
        assert op.Find? ==> Held(before, maxSize, op.key);
        assert op.key in Added(ops);
      } else {
        SinceMiss(before, maxSize, op, k);
      }
    }
  }

  /** As long as no more keys are added than fit, the cache hits exactly when the unbounded map does. */
  lemma NothingEvicted<K>(ops: seq<Op<K>>, maxSize: nat)
    requires |Added(ops)| <= maxSize
    ensures forall k :: Lookup(Run(ops, maxSize), k) == LatestAdd(ops, k)
  {
    HitIsLatestAdd(ops, maxSize);
    forall k
      ensures Lookup(Run(ops, maxSize), k) == LatestAdd(ops, k)
    {
      SinceAdded(ops, maxSize, k);
      if k in Added(ops) {
        MoreKeys(Since(ops, maxSize, k).value, Added(ops) - {k});
      }
      var i := Position(Run(ops, maxSize), k);
      assert i < |Run(ops, maxSize)| ==> Run(ops, maxSize)[i] in Run(ops, maxSize);
    }
  }

  // ------------------------------------------------------------------ the cache

  class Cache<K(==)> {
    const maxSize: nat
    var cache: seq<Entry<K>>

    ghost predicate Valid()
      reads this
    {
      Unique(cache) && |cache| <= maxSize
    }

    constructor (maxSize: nat)
      ensures Valid() && this.maxSize == maxSize && cache == Run([], maxSize)
    {
      this.maxSize := maxSize;
      cache := [];
    }

    /** Finds the entry and moves it to the most recent end. */
    method FindEntry(ip: K) returns (entry: Option<Entry<K>>)
      requires Unique(cache)
      modifies this
      ensures cache == FindIn(old(cache), ip)
      ensures ip in Keys(old(cache)) <==> entry.Some?
      ensures entry.Some? ==> entry.value == old(cache)[Position(old(cache), ip)] && cache[|cache| - 1] == entry.value
    {
      var i := Position(cache, ip);
      if i < |cache| {
        WithoutIsDelete(cache, i);
        entry := Some(cache[i]);
        cache := cache[..i] + cache[i + 1..];
        cache := cache + [entry.value];
      } else {
        entry := None;
      }
    }

    method Add(ip: K, hostname: Host)
      requires Valid()
      modifies this
      ensures Valid() && cache == Apply(old(cache), maxSize, Op.Add(ip, hostname))
    {
      UniqueAfter(cache, maxSize, Op.Add(ip, hostname));
      var entry := FindEntry(ip);
      if entry.Some? {
        assert cache[..|cache| - 1] == Without(old(cache), ip);
        cache := cache[|cache| - 1 := Entry(ip, hostname)];
        assert cache == Apply(old(cache), maxSize, Op.Add(ip, hostname));
        return;
      }
      WithoutAbsent(old(cache), ip);
      cache := cache + [Entry(ip, hostname)];
      if |cache| > maxSize {
        cache := cache[1..];
      }
    }

    method Find(ip: K) returns (host: Option<Host>)
      requires Valid()
      modifies this
      ensures Valid() && cache == Apply(old(cache), maxSize, Op.Find(ip))
      ensures host == Lookup(old(cache), ip)
    {
      UniqueAfter(cache, maxSize, Op.Find(ip));
      var entry := FindEntry(ip);
      assert cache == Apply(old(cache), maxSize, Op.Find(ip));
      host := if entry.Some? then Some(entry.value.host) else None;
    }
  }
}
