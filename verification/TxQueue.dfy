/** The tx_queue of a connection as it is in memory: items linked by `next`, walked, taken off the front, freed. */
module TxQueue {
  import opened Words
  import opened TcpProxy

  /** tcp_data_t. */
  class TcpData {
    const data: bytes
    const push: bool
    var sofar: nat
    var next: TcpData?

    constructor (data: bytes, push: bool)
      ensures this.data == data && this.push == push && sofar == 0 && next == null
    {
      this.data, this.push, sofar, next := data, push, 0, null;
    }

    ghost function AsItem(): Item
      reads this`sofar
    {
      Item(data, sofar, push)
    }
  }

  class LinkedQueue {
    var head: TcpData?
    ghost var items: seq<TcpData> // front first

    ghost predicate Valid()
      reads this, items
    {
      && (forall i, j :: 0 <= i < j < |items| ==> items[i] != items[j])
      && head == NextOf(0)
      && (forall i :: 0 <= i < |items| ==> items[i].next == NextOf(i + 1))
    }

    /** The i-th item, or null at the end. */
    ghost function NextOf(i: nat): TcpData?
      requires i <= |items|
      reads `items
    {
      if i < |items| then items[i] else null
    }

    ghost function Contents(): (r: seq<Item>)
      reads `items, items`sofar
      ensures |r| == |items| && forall i :: 0 <= i < |r| ==> r[i] == items[i].AsItem()
    {
      ItemsOf(items)
    }

    constructor ()
      ensures Valid() && Contents() == []
    {
      head, items := null, [];
    }

    /** The walk to the last item. */
    method Last() returns (cur: TcpData)
      requires Valid() && head != null
      ensures items != [] && cur == items[|items| - 1]
    {
      hide ItemsOf;
      cur := head;
      ghost var k := 0;
      while cur.next != null
        invariant 0 <= k < |items| && cur == items[k]
        decreases |items| - k
      {
        cur := cur.next;
        k := k + 1;
      }
    }

    /** enqueue_tcp_data: a new item after the last one. */
    method Append(buf: bytes, psh: bool)
      requires Valid()
      modifies `head, `items, items`next
      ensures Valid() && Contents() == old(Contents()) + [Item(buf, 0, psh)]
      ensures |items| == |old(items)| + 1 && items[..|old(items)|] == old(items) && fresh(items[|old(items)|])
    {
      var item := new TcpData(buf, psh);
      ghost var was := items;
      Link(item);
      ItemsAppend(was, item);
    }

    /** A new item is linked behind the last one. */
    method Link(item: TcpData)
      requires Valid() && item !in items && item.next == null
      modifies `head, `items, items`next
      ensures Valid() && items == old(items) + [item]
    {
      hide ItemsOf, Valid;
      ghost var was := items;
      LinkedIs();
      if head != null {
        var last := Last();
        last.next := item;
      } else {
        head := item;
      }
      items := items + [item];
      forall i | 0 <= i < |items|
        ensures items[i].next == NextOf(i + 1)
      {
        assert i < |was| ==> items[i] == was[i];
      }
      NowLinked(was, item);
    }

    lemma LinkedIs()
      requires Valid()
      ensures head == NextOf(0) && forall i :: 0 <= i < |items| ==> items[i].next == NextOf(i + 1)
      ensures forall i, j :: 0 <= i < j < |items| ==> items[i] != items[j]
    {
    }

    lemma NowLinked(was: seq<TcpData>, item: TcpData)
      requires items == was + [item] && item !in was && forall i, j :: 0 <= i < j < |was| ==> was[i] != was[j]
      requires head == NextOf(0) && forall i :: 0 <= i < |items| ==> items[i].next == NextOf(i + 1)
      ensures Valid()
    {
    }

    /** The first item is taken off and freed. */
    method TakeFirst()
      requires Valid() && head != null
      modifies `head, `items
      ensures Valid() && old(items) == [old(head)] + items && Contents() == old(Contents())[1..]
    {
      hide ItemsOf, Valid;
      LinkedIs();
      ghost var was := items;
      head := head.next;
      items := items[1..];
      assert forall i :: 0 <= i < |items| ==> items[i] == was[i + 1];
      StillLinked(was);
      ItemsTail(was);
    }

    lemma StillLinked(was: seq<TcpData>)
      requires was != [] && items == was[1..] && forall i, j :: 0 <= i < j < |was| ==> was[i] != was[j]
      requires head == NextOf(0) && forall i :: 0 <= i < |items| ==> items[i].next == NextOf(i + 1)
      ensures Valid()
    {
    }

    lemma NothingLeft()
      requires Valid() && head == null
      ensures Contents() == []
    {
    }

    lemma First()
      requires Valid() && head != null
      ensures items != [] && items[0] == head && Contents()[0] == head.AsItem()
    {
      hide ItemsOf;
    }

    /** send() accepted `n` bytes of the first item, and not all. */
    method Advance(n: nat)
      requires Valid() && head != null
      modifies head`sofar
      ensures Valid() && Contents() == old(Contents())[0 := old(Contents())[0].(sofar := old(Contents())[0].sofar + n)]
    {
      hide ItemsOf;
      First();
      head.sofar := head.sofar + n;
    }

    method RestOfFirst() returns (rest: bytes)
      requires Valid() && head != null
      ensures rest == Contents()[0].Rest()
    {
      First();
      rest := if head.sofar <= |head.data| then head.data[head.sofar..] else [];
    }

    /** One round of the loop: what send() says of the first item. */
    method SendOne(r: SendResult) returns (taken: bytes, stop: bool, failed: Option<SockError>)
      requires Valid() && head != null
      modifies this, items
      ensures Valid() && (if stop then items == old(items) else old(items) != [] && items == old(items)[1..])
      ensures |old(items)| > 0 && OneSent(old(Contents()), r, Contents(), taken, stop, failed) && (!stop ==> failed == None)
    {
      hide ItemsOf, Valid, Item.Rest, OneSent;
      First();
      ghost var q := Contents();
      taken, stop, failed := [], true, None;
      match r {
        case SendFailed(e) =>
          failed := Some(e);
          NoneSent(q, r);
        case Again => NoneSent(q, r);
        case Sent(n) =>
          var rest := RestOfFirst();
          if n < |rest| {
            Advance(n);
            taken := rest[..n];
            PartSent(q, n);
          } else {
            TakeFirst();
            taken, stop := rest, false;
            WholeSent(q, n);
          }
      }
    }

    /** The loop of handle_queued_tcp_data: what send() accepts is what the specified drain says, for all its answers. */
    method Send(sends: nat -> SendResult) returns (given: bytes, failed: Option<SockError>)
      requires Valid()
      modifies this, items
      ensures Valid() && Drained(Contents(), given, failed) == Drain(old(Contents()), sends, 0)
      ensures Suffix(items, old(items))
    {
      hide ItemsOf, Drain, Valid, OneSent, Suffix;
      ghost var all := Drain(Contents(), sends, 0);
      var i, stop := 0, false;
      given, failed := [], None;
      Unchanged(all, items);
      while head != null && !stop
        invariant Valid() && Suffix(items, old(items)) && (!stop ==> failed == None)
        invariant forall k :: 0 <= k < |items| ==> items[k] in old(items)
        invariant all == if stop then Drained(Contents(), given, failed) else After(given, Drain(Contents(), sends, i))
        decreases |items|, !stop
      {
        First();
        ghost var q, its, before := Contents(), items, given;
        var taken;
        taken, stop, failed := SendOne(sends(i));
        given := given + taken;
        DrainOne(q, sends, i, Contents(), taken, stop, failed, before);
        Shorter(items, its, old(items));
        i := i + 1;
      }
      if !stop {
        NothingLeft();
        DrainNothing(sends, i, given);
      }
    }

    /** The queue is freed when the connection is closed: every item once, in order. */
    method Free() returns (freed: seq<TcpData>)
      requires Valid()
      modifies `head, `items
      ensures Valid() && items == [] && head == null && freed == old(items)
    {
      freed := [];
      var cur := head;
      while cur != null
        invariant |freed| <= |items| && freed == items[..|freed|] && cur == NextOf(|freed|)
        decreases |items| - |freed|
      {
        var next := cur.next;
        freed := freed + [cur];
        cur := next;
      }
      head, items := null, [];
    }
  }

  ghost function ItemsOf(items: seq<TcpData>): (r: seq<Item>)
    reads items`sofar
    ensures |r| == |items| && forall i :: 0 <= i < |r| ==> r[i] == items[i].AsItem()
  {
    if items == [] then [] else ItemsOf(items[..|items| - 1]) + [items[|items| - 1].AsItem()]
  }

  lemma ItemsAppend(items: seq<TcpData>, item: TcpData)
    ensures ItemsOf(items + [item]) == ItemsOf(items) + [item.AsItem()]
  {
  }

  lemma ItemsTail(items: seq<TcpData>)
    requires items != []
    ensures ItemsOf(items[1..]) == ItemsOf(items)[1..]
  {
  }

  /** What one answer of send() makes of a queue. */
  predicate OneSent(q: seq<Item>, r: SendResult, q1: seq<Item>, taken: bytes, stop: bool, failed: Option<SockError>)
    requires q != []
  {
    var rest := q[0].Rest();
    match r
    case SendFailed(e) => q1 == q && taken == [] && stop && failed == Some(e)
    case Again => q1 == q && taken == [] && stop && failed == None
    case Sent(n) =>
      && failed == None && stop == (n < |rest|)
      && if stop then q1 == [q[0].(sofar := q[0].sofar + n)] + q[1..] && taken == rest[..n] else q1 == q[1..] && taken == rest
  }

  /** A drain after the bytes `given`. */
  function After(given: bytes, d: Drained): Drained {
    d.(sent := given + d.sent)
  }

  lemma DrainOne(q: seq<Item>, r: nat -> SendResult, i: nat, q1: seq<Item>, taken: bytes, stop: bool, failed: Option<SockError>,
                 given: bytes)
    requires q != [] && OneSent(q, r(i), q1, taken, stop, failed)
    ensures After(given, Drain(q, r, i)) ==
            if stop then Drained(q1, given + taken, failed) else After(given + taken, Drain(q1, r, i + 1))
  {
    hide Item.Rest;
    assert given + [] == given;
    ConcatAssoc(given, taken, Drain(q[1..], r, i + 1).sent);
  }

  /** Items are only taken off the front. */
  predicate Suffix<T(==)>(s: seq<T>, t: seq<T>) {
    |s| <= |t| && s == t[|t| - |s|..]
  }

  lemma Shorter<T>(s: seq<T>, t: seq<T>, u: seq<T>)
    requires Suffix(t, u) && (s == t || (t != [] && s == t[1..]))
    ensures Suffix(s, u) && forall k :: 0 <= k < |s| ==> s[k] in u
  {
  }

  lemma Unchanged<T>(d: Drained, s: seq<T>)
    ensures After([], d) == d && Suffix(s, s)
  {
    assert [] + d.sent == d.sent;
  }

  lemma NoneSent(q: seq<Item>, r: SendResult)
    requires q != [] && !r.Sent?
    ensures OneSent(q, r, q, [], true, if r.SendFailed? then Some(r.e) else None)
  {
  }

  lemma PartSent(q: seq<Item>, n: nat)
    requires q != [] && n < |q[0].Rest()|
    ensures OneSent(q, Sent(n), q[0 := q[0].(sofar := q[0].sofar + n)], q[0].Rest()[..n], true, None)
  {
    assert q[0 := q[0].(sofar := q[0].sofar + n)] == [q[0].(sofar := q[0].sofar + n)] + q[1..];
  }

  lemma WholeSent(q: seq<Item>, n: nat)
    requires q != [] && n >= |q[0].Rest()|
    ensures OneSent(q, Sent(n), q[1..], q[0].Rest(), false, None)
  {
  }

  lemma DrainNothing(r: nat -> SendResult, i: nat, given: bytes)
    ensures After(given, Drain([], r, i)) == Drained([], given, None)
  {
    assert given + [] == given;
  }
}
