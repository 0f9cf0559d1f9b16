/** HTTPReassembly on chunked transfer (section 7.1 of RFC 9112): what a chunked message is turned into. */
module HttpChunked {
  import opened Words
  import opened HttpReassembly

  /** A block of a chunked body: its size line, without the line end, and its bytes. */
  datatype Block = Block(line: bytes, data: bytes) {
    function Wire(): bytes {
      line + [13, 10] + data + [13, 10]
    }

    /** Where its bytes start. */
    function Start(): nat {
      |line| + 2
    }
  }

  function BlocksWire(bs: seq<Block>): bytes {
    if bs == [] then [] else bs[0].Wire() + BlocksWire(bs[1..])
  }

  function BlocksData(bs: seq<Block>): bytes {
    if bs == [] then [] else bs[0].data + BlocksData(bs[1..])
  }

  /** Whatever follows, the line is read as a size line that says `n`. */
  ghost predicate Says(rd: Reader, line: bytes, n: nat) {
    forall x: bytes :: rd.parseSizeLine(line + [13, 10] + x) == Some(SizeLine(|line|, Some(n)))
  }

  ghost predicate Sized(rd: Reader, b: Block) {
    b.data != [] && Says(rd, b.line, |b.data|)
  }

  ghost predicate AllSized(rd: Reader, bs: seq<Block>) {
    forall i :: 0 <= i < |bs| ==> Sized(rd, bs[i])
  }

  /** What was read of a body, and how many bytes of the block are to come; -1 between two blocks. */
  datatype Progress = Progress(data: bytes, left: int)

  /** What the first `n` bytes of the blocks lead to; None inside a size line, and inside a line end. */
  function Read(bs: seq<Block>, n: nat): Option<Progress> {
    if n == 0 then Some(Progress([], -1))
    else if bs == [] then None
    else
      var b := bs[0];
      if n < b.Start() then None
      else if n < b.Start() + |b.data| then Some(Progress(b.data[..n - b.Start()], |b.data| - (n - b.Start())))
      else if n < |b.Wire()| then None
      else
        match Read(bs[1..], n - |b.Wire()|)
        case None => None
        case Some(p) => Some(Progress(b.data + p.data, p.left))
  }

  /** In the body of a chunked message with the header block `head`. */
  ghost predicate Reading(st: State, head: bytes, e: ContentEncoding, p: Progress) {
    && st.reassemble && !st.invalid && !st.readingHeaders && st.chunked && st.encoding == e
    && Flat(st.headers) == head && Flat(st.body) == p.data && st.contentLength == p.left
    && (st.body == [] <==> p.data == [])
  }

  /** What is emitted of it at the end. */
  function Whole(rd: Reader, head: bytes, e: ContentEncoding, data: bytes): Emitted {
    Emitted(head + if e == Unknown || data == [] then data else rd.decode(e, data), false)
  }

  // ------------------------------------------------------------------ one block

  lemma BodyGrows(st: State, head: bytes, e: ContentEncoding, data: bytes, left: int, x: bytes, t: State)
    requires Reading(st, head, e, Progress(data, left)) && x != [] && t.body == st.body + [x]
    requires t == st.(body := t.body, contentLength := t.contentLength)
    ensures Reading(t, head, e, Progress(data + x, t.contentLength))
  {
    hide Flat;
    FlatAppend(st.body, x);
  }

  /** A chunk that starts with a block and goes past it. */
  lemma BlockTaken(rd: Reader, st: State, head: bytes, e: ContentEncoding, data: bytes, b: Block, x: bytes)
    requires Reading(st, head, e, Progress(data, -1)) && Sized(rd, b)
    ensures var (u, next) := BodyStage(rd, st, b.Wire() + x, 0);
            next == Some(|b.Wire()|) && Reading(u, head, e, Progress(data + b.data, -1)) && u.emitted == st.emitted
  {
    var p := b.Wire() + x;
    var rest := b.data + [13, 10] + x;
    assert p == b.line + [13, 10] + rest && p[0..] == p;
    assert rd.parseSizeLine(b.line + [13, 10] + rest) == Some(SizeLine(|b.line|, Some(|b.data|)));
    assert p[b.Start()..b.Start() + |b.data|] == b.data;
    hide Flat, Emit;
    var (t, next) := TakeBody(rd, st, p, 0);
    BodyGrows(st, head, e, data, -1, b.data, t);
  }

  /** One that starts with a block and stops in its bytes, or before the first. */
  lemma BlockStarted(rd: Reader, st: State, head: bytes, e: ContentEncoding, data: bytes, b: Block, x: bytes)
    requires Reading(st, head, e, Progress(data, -1)) && Sized(rd, b)
    requires b.Start() <= |x| < b.Start() + |b.data| && x == b.Wire()[..|x|]
    ensures var (u, next) := BodyStage(rd, st, x, 0);
            var k := |x| - b.Start();
            next == None && Reading(u, head, e, Progress(data + b.data[..k], |b.data| - k)) && u.emitted == st.emitted
  {
    var k := |x| - b.Start();
    assert x == b.line + [13, 10] + b.data[..k] && x[0..] == x;
    assert rd.parseSizeLine(b.line + [13, 10] + b.data[..k]) == Some(SizeLine(|b.line|, Some(|b.data|)));
    assert x[b.Start()..|x|] == b.data[..k];
    hide Flat, Emit;
    var (t, next) := TakeBody(rd, st, x, 0);
    if k > 0 {
      BodyGrows(st, head, e, data, -1, b.data[..k], t);
    } else {
      assert data + b.data[..0] == data && t.body == st.body;
    }
  }

  /** One that goes on in a block and past it. */
  lemma BlockEnded(rd: Reader, st: State, head: bytes, e: ContentEncoding, data: bytes, rest: bytes, x: bytes)
    requires rest != [] && Reading(st, head, e, Progress(data, |rest|))
    ensures var (u, next) := BodyStage(rd, st, rest + [13, 10] + x, 0);
            next == Some(|rest| + 2) && Reading(u, head, e, Progress(data + rest, -1)) && u.emitted == st.emitted
  {
    var p := rest + [13, 10] + x;
    assert p[0..|rest|] == rest;
    hide Flat, Emit;
    BodyGrows(st, head, e, data, |rest|, rest, TakeBody(rd, st, p, 0).0);
  }

  /** One that stays in it. */
  lemma BlockGoesOn(rd: Reader, st: State, head: bytes, e: ContentEncoding, data: bytes, left: nat, x: bytes)
    requires 0 < |x| < left && Reading(st, head, e, Progress(data, left))
    ensures var (u, next) := BodyStage(rd, st, x, 0);
            next == None && Reading(u, head, e, Progress(data + x, left - |x|)) && u.emitted == st.emitted
  {
    assert x[0..|x|] == x;
    hide Flat, Emit;
    BodyGrows(st, head, e, data, left, x, TakeBody(rd, st, x, 0).0);
  }

  /** The last size line: what follows in the chunk is taken for a part of the body, and the message is emitted. */
  lemma LastLine(rd: Reader, st: State, head: bytes, e: ContentEncoding, data: bytes, zero: bytes, tail: bytes)
    requires Reading(st, head, e, Progress(data, -1)) && Says(rd, zero, 0)
    ensures var (u, next) := BodyStage(rd, st, zero + [13, 10] + tail, 0);
            next == None && u.Fresh() && u.reassemble && u.emitted == st.emitted + [Whole(rd, head, e, data + tail)]
  {
    LastTaken(rd, st, zero, tail);
    var (t, next) := TakeBody(rd, st, zero + [13, 10] + tail, 0);
    assert st.reassemble && IsComplete(t) && (st.body == [] <==> data == []);
    EmitDecoded(rd, t);
    BodyOf(st, t, data, tail);
    hide Emit, Flat, TakeBody, Says;
    EmitWhole(rd, t, head, e, data + tail);
  }

  lemma LastTaken(rd: Reader, st: State, zero: bytes, tail: bytes)
    requires st.chunked && st.contentLength == -1 && st.reassemble && Says(rd, zero, 0)
    ensures TakeBody(rd, st, zero + [13, 10] + tail, 0) ==
            (st.(contentLength := 0, chunked := false, body := if tail == [] then st.body else st.body + [tail]), None)
  {
    var p := zero + [13, 10] + tail;
    assert p[0..] == p && p[|zero| + 2..|p|] == tail;
    assert rd.parseSizeLine(zero + [13, 10] + tail) == Some(SizeLine(|zero|, Some(0)));
  }

  lemma BodyOf(st: State, t: State, data: bytes, tail: bytes)
    requires Flat(st.body) == data && (st.body == [] <==> data == []) && t.body == if tail == [] then st.body else st.body + [tail]
    ensures Flat(t.body) == data + tail && (t.body == [] <==> data + tail == [])
  {
    hide Flat;
    if tail == [] {
      assert data + tail == data;
    } else {
      FlatAppend(st.body, tail);
    }
  }

  lemma EmitWhole(rd: Reader, st: State, head: bytes, e: ContentEncoding, data: bytes)
    requires !st.invalid && st.encoding == e && Flat(st.headers) == head && Flat(st.body) == data && (data == [] <==> st.body == [])
    ensures Emit(rd, st).emitted == st.emitted + [Whole(rd, head, e, data)]
  {
  }

  // ------------------------------------------------------------------ one piece

  lemma HandleIs(rd: Reader, st: State, head: bytes, e: ContentEncoding, p: Progress, x: bytes)
    requires Reading(st, head, e, p)
    ensures var (u, next) := BodyStage(rd, st, x, 0);
            Handle(rd, st, x) == if next.Some? && |x| > next.value then Handle(rd, u, x[next.value..]) else u
  {
    assert HeaderStage(rd, st, x) == st;
    hide BodyStage;
  }

  /** The place `n` in the wire form of the block `b`: at its start, or in its bytes. */
  predicate InBlock(b: Block, n: nat) {
    n == 0 || b.Start() <= n < b.Start() + |b.data|
  }

  function At(b: Block, n: nat): Progress
    requires InBlock(b, n)
  {
    if n == 0 then Progress([], -1) else Progress(b.data[..n - b.Start()], |b.data| - (n - b.Start()))
  }

  /** `p` after the bytes `data`. */
  function After(data: bytes, p: Progress): Progress {
    p.(data := data + p.data)
  }

  lemma AfterTwice(a: bytes, b: bytes, p: Progress)
    ensures After(a, After(b, p)) == After(a + b, p)
  {
    ConcatAssoc(a, b, p.data);
  }

  /** From a place in a block past its end. */
  lemma PastBlock(rd: Reader, st: State, head: bytes, e: ContentEncoding, data: bytes, b: Block, n: nat, x: bytes, y: bytes)
    requires Sized(rd, b) && InBlock(b, n) && Reading(st, head, e, After(data, At(b, n))) && x == b.Wire()[n..] + y
    ensures var (u, next) := BodyStage(rd, st, x, 0);
            && next == Some(|b.Wire()| - n) && x[next.value..] == y
            && Reading(u, head, e, Progress(data + b.data, -1)) && u.emitted == st.emitted
  {
    hide Reading, BodyStage, Sized;
    if n == 0 {
      assert data + [] == data && b.Wire()[0..] == b.Wire();
      BlockTaken(rd, st, head, e, data, b, y);
    } else {
      var k := n - b.Start();
      DataHere(b, n);
      assert data + b.data[..k] + b.data[k..] == data + b.data;
      BlockEnded(rd, st, head, e, data + b.data[..k], b.data[k..], y);
    }
  }

  lemma DataHere(b: Block, n: nat)
    requires b.Start() <= n < b.Start() + |b.data|
    ensures b.Wire()[n..] == b.data[n - b.Start()..] + [13, 10]
  {
  }

  /** From a place in a block to another one. */
  lemma WithinBlock(rd: Reader, st: State, head: bytes, e: ContentEncoding, data: bytes, b: Block, n: nat, x: bytes)
    requires Sized(rd, b) && InBlock(b, n) && Reading(st, head, e, After(data, At(b, n))) && x != []
    requires InBlock(b, n + |x|) && n + |x| <= |b.Wire()| && x == b.Wire()[n..n + |x|]
    ensures var (u, next) := BodyStage(rd, st, x, 0);
            next == None && Reading(u, head, e, After(data, At(b, n + |x|))) && u.emitted == st.emitted
  {
    hide Reading, BodyStage, Sized;
    var m := n + |x|;
    if n == 0 {
      assert data + [] == data && b.Wire()[0..m] == b.Wire()[..m];
      BlockStarted(rd, st, head, e, data, b, x);
    } else {
      var k := n - b.Start();
      assert x == b.data[k..k + |x|];
      assert data + b.data[..k] + x == data + b.data[..k + |x|];
      BlockGoesOn(rd, st, head, e, data + b.data[..k], |b.data| - k, x);
    }
  }

  lemma ReadFirst(bs: seq<Block>, n: nat)
    requires bs != []
    ensures var b, r := bs[0], Read(bs, n);
            if n < |b.Wire()| then r == (if InBlock(b, n) then Some(At(b, n)) else None)
            else
              var q := Read(bs[1..], n - |b.Wire()|);
              r == if q.Some? then Some(After(b.data, q.value)) else None
  {
  }

  lemma SliceOfTail(w: bytes, t: bytes, n: nat, x: bytes)
    requires n + |x| <= |w + t| && x == (w + t)[n..n + |x|]
    ensures n >= |w| ==> x == t[n - |w|..n - |w| + |x|]
    ensures n < |w| <= n + |x| ==> x == w[n..] + x[|w| - n..] && x[|w| - n..] == t[0..n + |x| - |w|]
    ensures n + |x| < |w| ==> x == w[n..n + |x|]
  {
  }

  /** `n` bytes of the blocks are read, their bytes held after `data`, and nothing was emitted since `emitted`. */
  ghost predicate Holds(st: State, head: bytes, e: ContentEncoding, data: bytes, bs: seq<Block>, n: nat, emitted: seq<Emitted>) {
    Read(bs, n).Some? && Reading(st, head, e, After(data, Read(bs, n).value)) && st.emitted == emitted
  }

  lemma HoldsLater(st: State, head: bytes, e: ContentEncoding, data: bytes, bs: seq<Block>, n: nat, emitted: seq<Emitted>)
    requires bs != [] && |bs[0].Wire()| <= n
    ensures Holds(st, head, e, data, bs, n, emitted) <==>
              Holds(st, head, e, data + bs[0].data, bs[1..], n - |bs[0].Wire()|, emitted)
  {
    ReadFirst(bs, n);
    hide Reading, Read;
    var q := Read(bs[1..], n - |bs[0].Wire()|);
    if q.Some? {
      AfterTwice(data, bs[0].data, q.value);
    }
  }

  lemma HoldsHere(st: State, head: bytes, e: ContentEncoding, data: bytes, bs: seq<Block>, n: nat, emitted: seq<Emitted>)
    requires bs != [] && n < |bs[0].Wire()|
    ensures Holds(st, head, e, data, bs, n, emitted) <==>
              InBlock(bs[0], n) && Reading(st, head, e, After(data, At(bs[0], n))) && st.emitted == emitted
  {
    ReadFirst(bs, n);
    hide Reading, Read;
  }

  lemma HoldsNone(st: State, head: bytes, e: ContentEncoding, data: bytes, bs: seq<Block>, emitted: seq<Emitted>)
    ensures Holds(st, head, e, data, bs, 0, emitted) <==> Reading(st, head, e, Progress(data, -1)) && st.emitted == emitted
  {
    assert data + [] == data;
    hide Reading;
  }

  lemma HandleHeld(rd: Reader, st: State, head: bytes, e: ContentEncoding, data: bytes, bs: seq<Block>, n: nat,
                   emitted: seq<Emitted>, x: bytes)
    requires Holds(st, head, e, data, bs, n, emitted)
    ensures var (u, next) := BodyStage(rd, st, x, 0);
            Handle(rd, st, x) == if next.Some? && |x| > next.value then Handle(rd, u, x[next.value..]) else u
  {
    HandleIs(rd, st, head, e, After(data, Read(bs, n).value), x);
    hide Reading, Read, BodyStage, Handle;
  }

  lemma FirstBlock(rd: Reader, bs: seq<Block>)
    requires bs != [] && AllSized(rd, bs)
    ensures Sized(rd, bs[0]) && AllSized(rd, bs[1..])
    ensures BlocksWire(bs) == bs[0].Wire() + BlocksWire(bs[1..]) && BlocksData(bs) == bs[0].data + BlocksData(bs[1..])
  {
    hide Sized;
  }

  /** `x` is what follows the first `n` bytes of the blocks, and ends cleanly. */
  predicate PieceAt(bs: seq<Block>, n: nat, x: bytes) {
    n + |x| <= |BlocksWire(bs)| && x == BlocksWire(bs)[n..n + |x|] && Read(bs, n + |x|).Some?
  }

  lemma PieceLater(bs: seq<Block>, n: nat, x: bytes)
    requires bs != [] && PieceAt(bs, n, x) && |bs[0].Wire()| <= n
    ensures PieceAt(bs[1..], n - |bs[0].Wire()|, x)
  {
    ReadFirst(bs, n + |x|);
    assert BlocksWire(bs) == bs[0].Wire() + BlocksWire(bs[1..]);
    hide Read, BlocksWire;
    SliceOfTail(bs[0].Wire(), BlocksWire(bs[1..]), n, x);
  }

  lemma PieceStays(bs: seq<Block>, n: nat, x: bytes)
    requires bs != [] && PieceAt(bs, n, x) && n + |x| < |bs[0].Wire()|
    ensures InBlock(bs[0], n + |x|) && x == bs[0].Wire()[n..n + |x|]
  {
    ReadFirst(bs, n + |x|);
    assert BlocksWire(bs) == bs[0].Wire() + BlocksWire(bs[1..]);
    hide Read, BlocksWire;
    SliceOfTail(bs[0].Wire(), BlocksWire(bs[1..]), n, x);
  }

  lemma PieceLeaves(bs: seq<Block>, n: nat, x: bytes) returns (y: bytes)
    requires bs != [] && PieceAt(bs, n, x) && n < |bs[0].Wire()| <= n + |x|
    ensures x == bs[0].Wire()[n..] + y && |y| == n + |x| - |bs[0].Wire()| && PieceAt(bs[1..], 0, y)
  {
    ReadFirst(bs, n + |x|);
    assert BlocksWire(bs) == bs[0].Wire() + BlocksWire(bs[1..]);
    hide Read, BlocksWire;
    SliceOfTail(bs[0].Wire(), BlocksWire(bs[1..]), n, x);
    y := x[|bs[0].Wire()| - n..];
  }

  lemma NoPiece(n: nat, x: bytes)
    requires PieceAt([], n, x)
    ensures x == []
  {
  }

  /** A piece of the blocks adds its bytes to those held, and nothing is emitted. */
  lemma {:induction false} BlocksFollow(rd: Reader, st: State, head: bytes, e: ContentEncoding, data: bytes, bs: seq<Block>, n: nat,
                                        emitted: seq<Emitted>, x: bytes)
    requires AllSized(rd, bs) && Holds(st, head, e, data, bs, n, emitted) && x != [] && PieceAt(bs, n, x)
    ensures Holds(Handle(rd, st, x), head, e, data, bs, n + |x|, emitted)
    decreases |bs|
  {
    hide *;
    if bs == [] {
      NoPiece(n, x);
    } else {
      FirstBlock(rd, bs);
      var rest, w := bs[1..], |bs[0].Wire()|;
      if n >= w {
        PieceLater(bs, n, x);
        HoldsLater(st, head, e, data, bs, n, emitted);
        BlocksFollow(rd, st, head, e, data + bs[0].data, rest, n - w, emitted, x);
        HoldsLater(Handle(rd, st, x), head, e, data, bs, n + |x|, emitted);
      } else if n + |x| < w {
        PieceStays(bs, n, x);
        StaysInBlock(rd, st, head, e, data, bs, n, emitted, x);
      } else {
        var y := PieceLeaves(bs, n, x);
        LeavesBlock(rd, st, head, e, data, bs, n, emitted, x, y);
        if y != [] {
          BlocksFollow(rd, BodyStage(rd, st, x, 0).0, head, e, data + bs[0].data, rest, 0, emitted, y);
        }
        HoldsLater(Handle(rd, st, x), head, e, data, bs, n + |x|, emitted);
      }
    }
  }

  lemma StaysInBlock(rd: Reader, st: State, head: bytes, e: ContentEncoding, data: bytes, bs: seq<Block>, n: nat,
                     emitted: seq<Emitted>, x: bytes)
    requires bs != [] && Sized(rd, bs[0]) && Holds(st, head, e, data, bs, n, emitted) && x != []
    requires n + |x| < |bs[0].Wire()| && InBlock(bs[0], n + |x|) && x == bs[0].Wire()[n..n + |x|]
    ensures Holds(Handle(rd, st, x), head, e, data, bs, n + |x|, emitted)
  {
    hide *;
    HandleHeld(rd, st, head, e, data, bs, n, emitted, x);
    HoldsHere(st, head, e, data, bs, n, emitted);
    WithinBlock(rd, st, head, e, data, bs[0], n, x);
    HoldsHere(Handle(rd, st, x), head, e, data, bs, n + |x|, emitted);
  }

  /** A piece that goes to the end of a block or past it: what is left of it is handled between two blocks. */
  lemma LeavesBlock(rd: Reader, st: State, head: bytes, e: ContentEncoding, data: bytes, bs: seq<Block>, n: nat,
                    emitted: seq<Emitted>, x: bytes, y: bytes)
    requires bs != [] && Sized(rd, bs[0]) && Holds(st, head, e, data, bs, n, emitted)
    requires n < |bs[0].Wire()| && x == bs[0].Wire()[n..] + y
    ensures var u := BodyStage(rd, st, x, 0).0;
            && Holds(u, head, e, data + bs[0].data, bs[1..], 0, emitted)
            && Handle(rd, st, x) == if y == [] then u else Handle(rd, u, y)
  {
    hide *;
    HandleHeld(rd, st, head, e, data, bs, n, emitted, x);
    HoldsHere(st, head, e, data, bs, n, emitted);
    PastBlock(rd, st, head, e, data, bs[0], n, x, y);
    HoldsNone(BodyStage(rd, st, x, 0).0, head, e, data + bs[0].data, bs[1..], emitted);
  }

  /** What ends a chunked body: the last size line, and what follows it in its chunk. */
  function Ending(zero: bytes, tail: bytes): bytes {
    zero + [13, 10] + tail
  }

  /** The piece that brings the last blocks and the last size line ends the message. */
  lemma {:induction false} BlocksEnd(rd: Reader, st: State, head: bytes, e: ContentEncoding, data: bytes, bs: seq<Block>, n: nat,
                                     emitted: seq<Emitted>, zero: bytes, tail: bytes, x: bytes)
    requires AllSized(rd, bs) && Says(rd, zero, 0) && n <= |BlocksWire(bs)| && Holds(st, head, e, data, bs, n, emitted)
    requires x == BlocksWire(bs)[n..] + Ending(zero, tail)
    ensures var u := Handle(rd, st, x);
            u.Fresh() && u.reassemble && u.emitted == emitted + [Whole(rd, head, e, data + BlocksData(bs) + tail)]
    decreases |bs|
  {
    hide *;
    if bs == [] {
      LastBlock(rd, st, head, e, data, emitted, zero, tail, n, x);
    } else {
      FirstBlock(rd, bs);
      var rest, w := bs[1..], bs[0].Wire();
      var y := BlocksWire(rest)[if n >= |w| then n - |w| else 0..] + Ending(zero, tail);
      EndLater(w, BlocksWire(rest), Ending(zero, tail), n, x, y);
      ConcatAssoc(data, bs[0].data, BlocksData(rest));
      if n >= |w| {
        HoldsLater(st, head, e, data, bs, n, emitted);
        BlocksEnd(rd, st, head, e, data + bs[0].data, rest, n - |w|, emitted, zero, tail, x);
      } else {
        LeavesBlock(rd, st, head, e, data, bs, n, emitted, x, y);
        EndingLength(zero, tail);
        BlocksEnd(rd, BodyStage(rd, st, x, 0).0, head, e, data + bs[0].data, rest, 0, emitted, zero, tail, y);
      }
    }
  }

  lemma EndLater(w: bytes, t: bytes, ending: bytes, n: nat, x: bytes, y: bytes)
    requires n <= |w + t| && x == (w + t)[n..] + ending && y == t[if n >= |w| then n - |w| else 0..] + ending
    ensures if n >= |w| then x == y else x == w[n..] + y && |y| >= |ending|
  {
  }

  lemma EndingLength(zero: bytes, tail: bytes)
    ensures |Ending(zero, tail)| >= 2
  {
  }

  lemma LastBlock(rd: Reader, st: State, head: bytes, e: ContentEncoding, data: bytes, emitted: seq<Emitted>, zero: bytes,
                  tail: bytes, n: nat, x: bytes)
    requires Says(rd, zero, 0) && Holds(st, head, e, data, [], n, emitted)
    requires n <= |BlocksWire([])| && x == BlocksWire([])[n..] + Ending(zero, tail)
    ensures var u := Handle(rd, st, x);
            u.Fresh() && u.reassemble && u.emitted == emitted + [Whole(rd, head, e, data + BlocksData([]) + tail)]
  {
    assert n == 0 && x == zero + [13, 10] + tail;
    assert data + BlocksData([]) + tail == data + tail;
    hide *;
    HandleHeld(rd, st, head, e, data, [], 0, emitted, zero + [13, 10] + tail);
    HoldsNone(st, head, e, data, [], emitted);
    LastLine(rd, st, head, e, data, zero, tail);
  }

  // ------------------------------------------------------------------ a whole message

  /** The header block of a chunked message. */
  predicate ChunkedHeader(rd: Reader, head: bytes) {
    EndOfHeaders(head) == |head| > 0 && rd.parseHeaders(head) == HeaderInfo(rd.parseHeaders(head).contentEncoding, None, false, true)
  }

  /** The header block may come with the start of the body: what is left is handled like a piece of its own. */
  lemma HeaderThenBody(rd: Reader, head: bytes, x: bytes)
    requires ChunkedHeader(rd, head)
    ensures var t := HeaderStage(rd, Start(true), head + x);
            && Holds(t, head, EncodingSaid(rd.parseHeaders(head), Unknown), [], [], 0, [])
            && Handle(rd, Start(true), head + x) == if x == [] then t else Handle(rd, t, x)
  {
    hide *;
    HeaderTaken(rd, head, x);
    var t := HeaderStage(rd, Start(true), head + x);
    HoldsNone(t, head, t.encoding, [], [], []);
    HandleIs(rd, t, head, t.encoding, Progress([], -1), x);
    SameBody(rd, t, head, x);
    ReadingOn(t, head, t.encoding, Progress([], -1));
    HandleFrom(rd, Start(true), head + x);
    var next := BodyStage(rd, t, x, 0).1;
    if x == [] {
      NothingTaken(rd, t, head);
      assert head + x == head;
    } else if next.Some? && |x| > next.value {
      assert (head + x)[|head| + next.value..] == x[next.value..];
    }
  }

  lemma HandleFrom(rd: Reader, st: State, x: bytes)
    requires st.readingHeaders && !HeaderStage(rd, st, x).readingHeaders
    ensures var (u, next) := BodyStage(rd, HeaderStage(rd, st, x), x, BodyStart(x));
            Handle(rd, st, x) == if next.Some? && |x| > next.value then Handle(rd, u, x[next.value..]) else u
  {
    hide HeaderStage, BodyStage, BodyStart;
  }

  lemma ReadingOn(st: State, head: bytes, e: ContentEncoding, p: Progress)
    requires Reading(st, head, e, p)
    ensures st.chunked && st.reassemble && !st.readingHeaders
  {
  }

  lemma HeaderTaken(rd: Reader, head: bytes, x: bytes)
    requires ChunkedHeader(rd, head)
    ensures BodyStart(head + x) == |head| && Start(true).readingHeaders
    ensures var t := HeaderStage(rd, Start(true), head + x);
            && Reading(t, head, EncodingSaid(rd.parseHeaders(head), Unknown), Progress([], -1)) && t.emitted == []
            && t.encoding == EncodingSaid(rd.parseHeaders(head), Unknown)
  {
    EndOfHeadersExtends(head, x);
    assert (head + x)[..|head|] == head;
    hide EndOfHeaders;
    var t := HeaderStage(rd, Start(true), head + x);
    assert t.headers == [] + [head];
    FlatEmpty();
    FlatAppend([], head);
    hide Flat;
  }

  lemma NothingTaken(rd: Reader, st: State, head: bytes)
    requires st.chunked && st.reassemble
    ensures BodyStage(rd, st, head, |head|) == (st, None)
  {
  }

  /** Taking a body does not depend on what comes before it in the chunk. */
  lemma SameBody(rd: Reader, st: State, head: bytes, x: bytes)
    ensures var (u, next) := BodyStage(rd, st, x, 0);
            BodyStage(rd, st, head + x, |head|) == (u, if next.None? then None else Some(|head| + next.value))
  {
    var p, n := head + x, |head|;
    assert p[n..] == x[0..];
    assert forall i, j :: 0 <= i <= j <= |x| ==> p[n + i..n + j] == x[i..j];
    hide Emit;
    assert TakeBody(rd, st, p, n).0 == TakeBody(rd, st, x, 0).0;
  }

  /** The body of a chunked message in pieces, of which the first may be empty and comes with the header block: none but the
      last ends inside a size line or a line end, and the last holds the last size line. */
  ghost predicate ChunkedCut(rd: Reader, ys: seq<bytes>, bs: seq<Block>, zero: bytes, tail: bytes) {
    && AllSized(rd, bs) && Says(rd, zero, 0) && ys != []
    && Flat(ys) == BlocksWire(bs) + Ending(zero, tail)
    && (forall j :: 0 < j < |ys| ==> ys[j] != [])
    && forall j :: 0 < j < |ys| ==> EndsInBlocks(bs, |Flat(ys[..j])|)
  }

  predicate EndsInBlocks(bs: seq<Block>, n: nat) {
    n <= |BlocksWire(bs)| && Read(bs, n).Some?
  }

  /** The pieces with the header block in the first. */
  function WithHeader(head: bytes, ys: seq<bytes>): seq<bytes>
    requires ys != []
  {
    [head + ys[0]] + ys[1..]
  }

  lemma PieceOf(rd: Reader, ys: seq<bytes>, bs: seq<Block>, zero: bytes, tail: bytes, j: nat)
    requires ChunkedCut(rd, ys, bs, zero, tail) && j + 1 < |ys|
    ensures PieceAt(bs, |Flat(ys[..j])|, ys[j]) && |Flat(ys[..j + 1])| == |Flat(ys[..j])| + |ys[j]|
  {
    var n := |Flat(ys[..j])|;
    assert EndsInBlocks(bs, |Flat(ys[..j + 1])|);
    FlatNext(ys, j);
    FlatSplit(ys, j + 1);
    hide Flat, BlocksWire, Ending, Read, Says, AllSized;
    var w := BlocksWire(bs);
    SliceHere(Flat(ys[..j]), ys[j], Flat(ys[j + 1..]), w, Ending(zero, tail));
  }

  lemma SliceHere(a: bytes, x: bytes, c: bytes, w: bytes, ending: bytes)
    requires a + x + c == w + ending && |a + x| <= |w|
    ensures w[|a|..|a| + |x|] == x
  {
    assert (a + x + c)[|a|..|a| + |x|] == x;
    assert (w + ending)[|a|..|a| + |x|] == w[|a|..|a| + |x|];
  }

  lemma LastPiece(rd: Reader, ys: seq<bytes>, bs: seq<Block>, zero: bytes, tail: bytes)
    requires ChunkedCut(rd, ys, bs, zero, tail)
    ensures var j := |ys| - 1;
            var n := |Flat(ys[..j])|;
            n <= |BlocksWire(bs)| && ys[j] == BlocksWire(bs)[n..] + Ending(zero, tail)
  {
    var j := |ys| - 1;
    FlatNext(ys, j);
    FlatEmpty();
    assert ys[..j + 1] == ys && (j == 0 ==> ys[..0] == []);
    assert j > 0 ==> EndsInBlocks(bs, |Flat(ys[..j])|);
    hide Flat, BlocksWire, Ending, Read, Says, AllSized;
    RestIs(Flat(ys[..j]), ys[j], BlocksWire(bs), Ending(zero, tail));
  }

  lemma RestIs(a: bytes, x: bytes, w: bytes, ending: bytes)
    requires a + x == w + ending && |a| <= |w|
    ensures x == w[|a|..] + ending
  {
    assert x == (a + x)[|a|..];
  }

  /** What the pieces before number `j` lead to. */
  ghost predicate HeldBefore(rd: Reader, head: bytes, ys: seq<bytes>, bs: seq<Block>, j: nat)
    requires 0 < j <= |ys|
  {
    Holds(HandleAll(rd, Start(true), WithHeader(head, ys)[..j]), head, EncodingSaid(rd.parseHeaders(head), Unknown), [], bs,
          |Flat(ys[..j])|, [])
  }

  lemma FirstHandled(rd: Reader, head: bytes, ys: seq<bytes>)
    requires ys != []
    ensures HandleAll(rd, Start(true), WithHeader(head, ys)[..1]) == Handle(rd, Start(true), head + ys[0]) && Flat(ys[..0]) == []
  {
    var ps := WithHeader(head, ys);
    hide Handle;
    HandleAllNext(rd, Start(true), ps, 0);
    assert ps[..0] == [] && ys[..0] == [];
    FlatEmpty();
  }

  lemma OneFollows(rd: Reader, st: State, head: bytes, e: ContentEncoding, bs: seq<Block>, n: nat, x: bytes, u: State, m: nat)
    requires AllSized(rd, bs) && Holds(st, head, e, [], bs, n, []) && PieceAt(bs, n, x) && m == n + |x|
    requires u == if x == [] then st else Handle(rd, st, x)
    ensures Holds(u, head, e, [], bs, m, [])
  {
    hide *;
    if x != [] {
      BlocksFollow(rd, st, head, e, [], bs, n, [], x);
    }
  }

  lemma FirstHeld(rd: Reader, head: bytes, ys: seq<bytes>, bs: seq<Block>, zero: bytes, tail: bytes)
    requires ChunkedHeader(rd, head) && ChunkedCut(rd, ys, bs, zero, tail) && 1 < |ys|
    ensures HeldBefore(rd, head, ys, bs, 1)
  {
    assert AllSized(rd, bs);
    hide *;
    var x, u, m := ys[0], HandleAll(rd, Start(true), WithHeader(head, ys)[..1]), |Flat(ys[..1])|;
    FirstHandled(rd, head, ys);
    PieceOf(rd, ys, bs, zero, tail, 0);
    HeaderThenBody(rd, head, x);
    OneFollows(rd, HeaderStage(rd, Start(true), head + x), head, EncodingSaid(rd.parseHeaders(head), Unknown), bs, 0, x, u, m);
    IsHeld(rd, head, ys, bs, 1);
  }

  lemma IsHeld(rd: Reader, head: bytes, ys: seq<bytes>, bs: seq<Block>, j: nat)
    requires 0 < j <= |ys|
    ensures HeldBefore(rd, head, ys, bs, j) <==>
              Holds(HandleAll(rd, Start(true), WithHeader(head, ys)[..j]), head, EncodingSaid(rd.parseHeaders(head), Unknown), [], bs,
                    |Flat(ys[..j])|, [])
  {
    hide Holds, HandleAll, Flat;
  }

  lemma NextHandled(rd: Reader, head: bytes, ys: seq<bytes>, j: nat)
    requires 0 < j < |ys|
    ensures var ps := WithHeader(head, ys);
            HandleAll(rd, Start(true), ps[..j + 1]) == Handle(rd, HandleAll(rd, Start(true), ps[..j]), ys[j])
  {
    hide HandleAll, Handle;
    HandleAllNext(rd, Start(true), WithHeader(head, ys), j);
  }

  lemma NextHeld(rd: Reader, head: bytes, ys: seq<bytes>, bs: seq<Block>, zero: bytes, tail: bytes, i: nat)
    requires ChunkedCut(rd, ys, bs, zero, tail) && 0 < i && i + 1 < |ys| && HeldBefore(rd, head, ys, bs, i)
    ensures HeldBefore(rd, head, ys, bs, i + 1)
  {
    assert AllSized(rd, bs) && ys[i] != [];
    hide *;
    var ps, e, x := WithHeader(head, ys), EncodingSaid(rd.parseHeaders(head), Unknown), ys[i];
    var st, u, n, m := HandleAll(rd, Start(true), ps[..i]), HandleAll(rd, Start(true), ps[..i + 1]), |Flat(ys[..i])|, |Flat(ys[..i + 1])|;
    IsHeld(rd, head, ys, bs, i);
    PieceOf(rd, ys, bs, zero, tail, i);
    NextHandled(rd, head, ys, i);
    OneFollows(rd, st, head, e, bs, n, x, u, m);
    IsHeld(rd, head, ys, bs, i + 1);
  }

  /** Before the last piece the bytes of the blocks are held. */
  lemma {:induction false} PiecesFollow(rd: Reader, head: bytes, ys: seq<bytes>, bs: seq<Block>, zero: bytes, tail: bytes, j: nat)
    requires ChunkedHeader(rd, head) && ChunkedCut(rd, ys, bs, zero, tail) && 0 < j < |ys|
    ensures HeldBefore(rd, head, ys, bs, j)
  {
    hide *;
    if j == 1 {
      FirstHeld(rd, head, ys, bs, zero, tail);
    } else {
      PiecesFollow(rd, head, ys, bs, zero, tail, j - 1);
      NextHeld(rd, head, ys, bs, zero, tail, j - 1);
    }
  }

  /** However the body of a chunked message is cut into pieces that end between two blocks or in the bytes of one, one message
      is emitted: the header block and the bytes of the blocks, decoded as a whole, without size lines and line ends. But what
      follows the last size line in its piece, which is the blank line at least, is taken for body. */
  lemma ChunkedReassembled(rd: Reader, head: bytes, ys: seq<bytes>, bs: seq<Block>, zero: bytes, tail: bytes)
    requires ChunkedHeader(rd, head) && ChunkedCut(rd, ys, bs, zero, tail)
    ensures var u := HandleAll(rd, Start(true), WithHeader(head, ys));
            && u.Fresh() && u.reassemble
            && u.emitted == [Whole(rd, head, EncodingSaid(rd.parseHeaders(head), Unknown), BlocksData(bs) + tail)]
  {
    var e, j := EncodingSaid(rd.parseHeaders(head), Unknown), |ys| - 1;
    var ps := WithHeader(head, ys);
    assert ps[..j + 1] == ps && [] + BlocksData(bs) == BlocksData(bs);
    assert AllSized(rd, bs) && Says(rd, zero, 0);
    hide *;
    LastPiece(rd, ys, bs, zero, tail);
    if j == 0 {
      FirstHandled(rd, head, ys);
      HeaderThenBody(rd, head, ys[0]);
      EndingLength(zero, tail);
      BlocksEnd(rd, HeaderStage(rd, Start(true), head + ys[0]), head, e, [], bs, 0, [], zero, tail, ys[0]);
    } else {
      PiecesFollow(rd, head, ys, bs, zero, tail, j);
      IsHeld(rd, head, ys, bs, j);
      NextHandled(rd, head, ys, j);
      BlocksEnd(rd, HandleAll(rd, Start(true), ps[..j]), head, e, [], bs, |Flat(ys[..j])|, [], zero, tail, ys[j]);
    }
    assert forall w: Emitted :: [] + [w] == [w];
  }

  /** So a chunked message without an encoding comes out as its content if and only if nothing follows the last size line in
      its piece. */
  lemma ExactWithoutTail(rd: Reader, head: bytes, ys: seq<bytes>, bs: seq<Block>, zero: bytes, tail: bytes)
    requires ChunkedHeader(rd, head) && ChunkedCut(rd, ys, bs, zero, tail) && rd.parseHeaders(head).contentEncoding == None
    ensures HandleAll(rd, Start(true), WithHeader(head, ys)).emitted == [Emitted(head + BlocksData(bs), false)] <==> tail == []
  {
    assert EncodingSaid(rd.parseHeaders(head), Unknown) == Unknown;
    hide *;
    ChunkedReassembled(rd, head, ys, bs, zero, tail);
    PlainWhole(rd, head, BlocksData(bs), tail);
  }

  lemma PlainWhole(rd: Reader, head: bytes, data: bytes, tail: bytes)
    ensures Whole(rd, head, Unknown, data + tail) == Emitted(head + (data + tail), false)
    ensures head + (data + tail) == head + data <==> tail == []
  {
    assert |head + (data + tail)| == |head| + |data| + |tail|;
    assert tail == [] ==> data + tail == data;
  }
}
