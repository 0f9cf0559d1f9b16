/** HTTPReassembly: splits a stream of payload chunks into HTTP messages, one direction of one connection.
    How header lines, chunk-size lines and encodings are read is a parameter of the class. */
module HttpReassembly {
  import opened Words

  const MAX_HEADERS_SIZE := 1024

  datatype ContentEncoding = Unknown | Gzip | Deflate | Brotli

  /** What the header lines of one block say; None or false where no line says it. */
  datatype HeaderInfo = HeaderInfo(contentEncoding: Option<ContentEncoding>, contentLength: Option<int>,
                                   upgrade: bool, chunked: bool)

  /** A chunk-size line: its length without the line end, and its value unless it is not a hexadecimal number. */
  datatype SizeLine = SizeLine(length: nat, value: Option<int>)

  /** A payload handed to the listener; `raw` marks traffic taken not to be HTTP. */
  datatype Emitted = Emitted(payload: bytes, raw: bool)

  // ------------------------------------------------------------------ header blocks

  predicate BlankLineAt(b: bytes, i: nat) {
    i + 4 <= |b| && b[i..i + 4] == [13, 10, 13, 10]
  }

  /** Index just after the first blank line at or after `from`, or 0. */
  function EndOfHeadersFrom(b: bytes, from: nat): (r: nat)
    ensures r == 0 || (from + 4 <= r <= |b| && BlankLineAt(b, r - 4))
    ensures forall i :: from <= i && BlankLineAt(b, i) ==> 0 < r <= i + 4
    decreases |b| - from
  {
    if from + 4 > |b| then 0 else if BlankLineAt(b, from) then from + 4 else EndOfHeadersFrom(b, from + 1)
  }

  function EndOfHeaders(b: bytes): (r: nat)
    ensures r <= |b|
  {
    EndOfHeadersFrom(b, 0)
  }

  lemma EndOfHeadersExtends(h: bytes, x: bytes)
    requires EndOfHeaders(h) == |h| > 0
    ensures EndOfHeaders(h + x) == |h|
  {
    var b := h + x;
    assert b[|h| - 4..|h|] == h[|h| - 4..|h|];
    assert BlankLineAt(b, |h| - 4);
    var r := EndOfHeaders(b);
    assert b[r - 4..r] == h[r - 4..r];
    assert BlankLineAt(h, r - 4);
  }

  // ------------------------------------------------------------------ messages and streams

  datatype Message = Message(header: bytes, body: bytes) {
    function Wire(): bytes {
      header + body
    }
  }

  function Stream(msgs: seq<Message>): bytes {
    if msgs == [] then [] else msgs[0].Wire() + Stream(msgs[1..])
  }

  function EncodingSaid(info: HeaderInfo, otherwise: ContentEncoding): ContentEncoding {
    if info.contentEncoding.Some? then info.contentEncoding.value else otherwise
  }

  /** What the listener is to get of a message: the body is decoded as a whole, if the header block names an encoding. */
  function Shown(rd: Reader, m: Message): bytes {
    var encoding := EncodingSaid(rd.parseHeaders(m.header), Unknown);
    m.header + if encoding == Unknown then m.body else rd.decode(encoding, m.body)
  }

  function Payloads(rd: Reader, msgs: seq<Message>): seq<Emitted> {
    seq(|msgs|, i requires 0 <= i < |msgs| => Emitted(Shown(rd, msgs[i]), false))
  }

  /** How many of `msgs` end within the first `n` bytes of their stream. */
  function Done(msgs: seq<Message>, n: nat): (k: nat)
    ensures k <= |msgs|
  {
    if msgs == [] || n < |msgs[0].Wire()| then 0 else 1 + Done(msgs[1..], n - |msgs[0].Wire()|)
  }

  /** How many of the first `n` bytes belong to the message after those. */
  function Left(msgs: seq<Message>, n: nat): nat {
    if msgs == [] || n < |msgs[0].Wire()| then n else Left(msgs[1..], n - |msgs[0].Wire()|)
  }

  /** What two groups of header lines say together: a later line replaces what an earlier one says. */
  function Combine(a: HeaderInfo, b: HeaderInfo): HeaderInfo {
    HeaderInfo(if b.contentEncoding.Some? then b.contentEncoding else a.contentEncoding,
               if b.contentLength.Some? then b.contentLength else a.contentLength,
               a.upgrade || b.upgrade, a.chunked || b.chunked)
  }

  predicate LineEnd(h: bytes, a: nat) {
    2 <= a <= |h| && h[a - 2..a] == [13, 10]
  }

  /** The lines of the block `h` before `a` and those from there to a later line end say together what they say when they
      are read at once. */
  ghost predicate LinesApart(rd: Reader, h: bytes, a: nat)
    requires a <= |h|
  {
    forall b :: a < b <= |h| && LineEnd(h, b) ==> rd.parseHeaders(h[..b]) == Combine(rd.parseHeaders(h[..a]), rd.parseHeaders(h[a..b]))
  }

  /** The header block `h` may be cut at `a`: at the end of a line within its first 1024 bytes, but not between its last
      line and the blank one. */
  ghost predicate HeaderCut(rd: Reader, h: bytes, a: nat) {
    LineEnd(h, a) && a + 4 <= |h| && a <= 1024 && LinesApart(rd, h, a)
  }

  /** The first `n` bytes of the stream end inside a header block only where that may be cut. */
  ghost predicate EndsCleanly(rd: Reader, msgs: seq<Message>, n: nat) {
    var rest, off := msgs[Done(msgs, n)..], Left(msgs, n);
    off == 0 || (rest != [] && (|rest[0].header| <= off || HeaderCut(rd, rest[0].header, off)))
  }

  /** `payload` is what follows the first `off` bytes of the stream, and stops inside a header block only where that may
      be cut. */
  ghost predicate Continues(rd: Reader, payload: bytes, msgs: seq<Message>, off: nat) {
    && off + |payload| <= |Stream(msgs)|
    && payload == Stream(msgs)[off..off + |payload|]
    && EndsCleanly(rd, msgs, off + |payload|)
  }

  /** A piece that starts inside the first message and stays in it. */
  lemma StaysInFirst(rd: Reader, payload: bytes, msgs: seq<Message>, off: nat)
    requires Continues(rd, payload, msgs, off) && msgs != [] && off + |payload| < |msgs[0].Wire()|
    ensures Done(msgs, off + |payload|) == 0 && Left(msgs, off + |payload|) == off + |payload|
    ensures payload == msgs[0].Wire()[off..off + |payload|]
    ensures off + |payload| == 0 || |msgs[0].header| <= off + |payload| || HeaderCut(rd, msgs[0].header, off + |payload|)
  {
    assert Stream(msgs) == msgs[0].Wire() + Stream(msgs[1..]);
  }

  lemma FirstDone(msgs: seq<Message>, n: nat)
    requires msgs != [] && |msgs[0].Wire()| <= n
    ensures var w, tail := msgs[0].Wire(), msgs[1..];
            && Done(msgs, n) == 1 + Done(tail, n - |w|) && Left(msgs, n) == Left(tail, n - |w|)
            && msgs[Done(msgs, n)..] == tail[Done(tail, n - |w|)..]
  {
  }

  lemma FirstInStream(msgs: seq<Message>)
    requires msgs != []
    ensures Stream(msgs) == msgs[0].Wire() + Stream(msgs[1..])
  {
  }

  lemma SliceAcross(p: bytes, w: bytes, t: bytes, off: nat)
    requires off <= |w| <= off + |p| <= |w + t| && p == (w + t)[off..off + |p|]
    ensures p[..|w| - off] == w[off..] && p[|w| - off..] == t[0..off + |p| - |w|]
  {
  }

  /** A piece that starts inside the first message and completes it goes on with the next. */
  lemma CompletesFirst(rd: Reader, payload: bytes, msgs: seq<Message>, off: nat)
    requires Continues(rd, payload, msgs, off) && msgs != [] && off < |msgs[0].Wire()| <= off + |payload|
    ensures var w, n, tail := msgs[0].Wire(), off + |payload|, msgs[1..];
            && Done(msgs, n) == 1 + Done(tail, n - |w|) && Left(msgs, n) == Left(tail, n - |w|)
            && msgs[Done(msgs, n)..] == tail[Done(tail, n - |w|)..]
            && payload[..|w| - off] == w[off..]
            && Continues(rd, payload[|w| - off..], tail, 0)
  {
    var w, n, tail := msgs[0].Wire(), off + |payload|, msgs[1..];
    hide Done, Left, Stream;
    FirstDone(msgs, n);
    FirstInStream(msgs);
    SliceAcross(payload, w, Stream(tail), off);
  }

  /** Body bytes held so far and the piece taken from a chunk make up the body bytes held next. */
  lemma BodyPiece(rd: Reader, payload: bytes, bodyStart: nat, msgs: seq<Message>, off: nat)
    requires bodyStart <= |payload| && Continues(rd, payload[bodyStart..], msgs, off)
    requires msgs != [] && |msgs[0].header| <= off < |msgs[0].Wire()|
    ensures var m, size := msgs[0], |payload| - bodyStart;
            var held, left := off - |m.header|, |m.Wire()| - off;
            if size < left then m.body[..held] + payload[bodyStart..] == m.body[..held + size]
            else m.body[..held] + payload[bodyStart..bodyStart + left] == m.body
  {
    var b, m := payload[bodyStart..], msgs[0];
    var left := |m.Wire()| - off;
    if |b| < left {
      StaysInFirst(rd, b, msgs, off);
    } else {
      CompletesFirst(rd, b, msgs, off);
      assert b[..left] == payload[bodyStart..bodyStart + left];
    }
  }

  lemma DoneNone(msgs: seq<Message>)
    requires forall i :: 0 <= i < |msgs| ==> |msgs[i].Wire()| > 0
    ensures Done(msgs, 0) == 0 && Left(msgs, 0) == 0
  {
  }

  lemma PayloadsStep(rd: Reader, msgs: seq<Message>, k: nat)
    requires 0 < k <= |msgs|
    ensures Payloads(rd, msgs[..k]) == [Emitted(Shown(rd, msgs[0]), false)] + Payloads(rd, msgs[1..][..k - 1])
  {
    assert msgs[..k][0] == msgs[0];
    assert forall i :: 0 < i < k ==> msgs[..k][i] == msgs[1..][..k - 1][i - 1];
  }

  lemma HeaderOfPiece(p: bytes, h: bytes, x: bytes, s: bytes, off: nat)
    requires off + |h + x| == |s| && s[off..] == h + x && |h| <= |p| <= |h + x| && p == s[off..off + |p|]
    ensures p[..|h|] == h && p == h + p[|h|..]
  {
    assert p == (h + x)[..|p|];
  }

  lemma MoreToCome(rd: Reader, payload: bytes, msgs: seq<Message>, off: nat)
    requires payload != [] && Continues(rd, payload, msgs, off)
    ensures msgs != []
  {
  }

  lemma PayloadsConcat(rd: Reader, msgs: seq<Message>, a: nat, b: nat)
    requires a + b <= |msgs|
    ensures Payloads(rd, msgs[..a]) + Payloads(rd, msgs[a..][..b]) == Payloads(rd, msgs[..a + b])
  {
  }

  function EmittedBytes(e: seq<Emitted>): bytes {
    if e == [] then [] else EmittedBytes(e[..|e| - 1]) + e[|e| - 1].payload
  }

  lemma EmittedAppend(e: seq<Emitted>, x: Emitted)
    ensures EmittedBytes(e + [x]) == EmittedBytes(e) + x.payload
  {
    assert (e + [x])[..|e|] == e;
  }

  lemma {:induction false} DoneAdds(msgs: seq<Message>, a: nat, b: nat)
    ensures Done(msgs, a + b) == Done(msgs, a) + Done(msgs[Done(msgs, a)..], Left(msgs, a) + b)
    ensures Left(msgs, a + b) == Left(msgs[Done(msgs, a)..], Left(msgs, a) + b)
    decreases |msgs|
  {
    if msgs == [] || a < |msgs[0].Wire()| {
      assert msgs[0..] == msgs;
    } else {
      var tail, n := msgs[1..], |msgs[0].Wire()|;
      DoneAdds(tail, a - n, b);
      var rest := tail[Done(tail, a - n)..];
      assert rest == msgs[Done(msgs, a)..] && Left(msgs, a) == Left(tail, a - n);
      var c := (a - n) + b;
      assert c == a + b - n && Done(msgs, a + b) == 1 + Done(tail, c) && Left(msgs, a + b) == Left(tail, c);
    }
  }

  lemma {:induction false} StreamSuffix(msgs: seq<Message>, n: nat)
    requires n <= |Stream(msgs)|
    ensures var rest := msgs[Done(msgs, n)..];
            Left(msgs, n) <= |Stream(rest)| && Stream(msgs)[n..] == Stream(rest)[Left(msgs, n)..]
    decreases |msgs|
  {
    if msgs == [] || n < |msgs[0].Wire()| {
      assert msgs[0..] == msgs;
    } else {
      var w := |msgs[0].Wire()|;
      StreamSuffix(msgs[1..], n - w);
      assert msgs[1..][Done(msgs[1..], n - w)..] == msgs[Done(msgs, n)..];
      assert Stream(msgs)[n..] == Stream(msgs[1..])[n - w..];
    }
  }

  lemma {:induction false} DoneAll(msgs: seq<Message>)
    requires forall i :: 0 <= i < |msgs| ==> |msgs[i].Wire()| > 0
    ensures Done(msgs, |Stream(msgs)|) == |msgs| && Left(msgs, |Stream(msgs)|) == 0
  {
    if msgs != [] {
      DoneAll(msgs[1..]);
    }
  }

  // ------------------------------------------------------------------ the parser state and its steps

  /** How bytes are read: header blocks, chunk-size lines, encoded bodies. */
  datatype Reader = Reader(parseHeaders: bytes -> HeaderInfo, parseSizeLine: bytes -> Option<SizeLine>,
                           decode: (ContentEncoding, bytes) -> bytes)

  datatype State = State(readingHeaders: bool, chunked: bool, encoding: ContentEncoding, contentLength: int,
                         headersSize: nat, headers: seq<bytes>, body: seq<bytes>,
                         reassemble: bool, invalid: bool, emitted: seq<Emitted>)
  {
    /** Outside the header state at least one header chunk is held, so reassembleChunks has a first element. */
    predicate Valid() {
      (!readingHeaders ==> headers != []) && (readingHeaders ==> body == [])
    }

    /** The state reset() leaves behind. */
    predicate Fresh() {
      readingHeaders && !chunked && encoding == Unknown && contentLength == -1 && headersSize == 0
      && Flat(headers) == [] && body == []
    }

    function Held(): bytes {
      Flat(headers) + Flat(body)
    }

    /** Every byte emitted or still held, in order. */
    function Bytes(): bytes {
      EmittedBytes(emitted) + Held()
    }
  }

  function Start(reassemble: bool): State {
    State(true, false, Unknown, -1, 0, [], [], reassemble, false, [])
  }

  function Reset(st: State): State {
    st.(readingHeaders := true, encoding := Unknown, chunked := false, contentLength := -1,
        headersSize := 0, headers := [], body := [])
  }

  function BodyStart(payload: bytes): (r: nat)
    ensures r <= |payload|
  {
    if EndOfHeaders(payload) == 0 then |payload| else EndOfHeaders(payload)
  }

  function TakeHeaders(rd: Reader, st: State, payload: bytes): State {
    var size := BodyStart(payload);
    var info := rd.parseHeaders(payload[..size]);
    var over := EndOfHeaders(payload) == 0 && st.headersSize + size > MAX_HEADERS_SIZE;
    st.(headersSize := st.headersSize + size,
        encoding := if info.contentEncoding.Some? then info.contentEncoding.value else st.encoding,
        contentLength := if info.contentLength.Some? then info.contentLength.value else st.contentLength,
        chunked := st.chunked || info.chunked,
        headers := st.headers + [payload[..size]],
        readingHeaders := EndOfHeaders(payload) == 0 && !over,
        reassemble := st.reassemble && !info.upgrade && !over,
        invalid := st.invalid || over)
  }

  /** Without a length to go by reassembly is given up, and then the header state is left in any case. */
  function Settle(st: State): State {
    var r := st.reassemble && (st.readingHeaders || st.contentLength >= 0 || st.chunked);
    st.(reassemble := r, readingHeaders := st.readingHeaders && r)
  }

  /** Body bytes are taken up to the end of the message, if the chunk reaches it; also where the next one starts. */
  function TakeBody(rd: Reader, st: State, payload: bytes, from: nat): (r: (State, Option<nat>))
    requires from <= |payload|
    ensures r.1.Some? ==> r.1.value > 0
  {
    var line := if st.chunked && st.contentLength < 0 && from < |payload| then rd.parseSizeLine(payload[from..]) else None;
    var sized := line.Some? && line.value.value.Some?;
    var length := if sized then line.value.value.value else st.contentLength;
    var start := if sized then from + line.value.length + 2 else from;
    var size := |payload| - start;
    var cut := 0 < length <= size;
    var end := if cut then start + length else |payload|;
    (st.(contentLength := if cut then -1 else if size > 0 && length > 0 then length - size else length,
         body := if size > 0 then st.body + [payload[start..end]] else st.body,
         chunked := st.chunked && !(sized && length == 0) && st.reassemble),
     if cut then Some(if st.chunked then end + 2 else end) else None)
  }

  predicate IsComplete(st: State) {
    (st.contentLength <= 0 || !st.reassemble) && !st.chunked
  }

  function Emit(rd: Reader, st: State): State {
    var body := if st.body != [] && st.encoding != Unknown then rd.decode(st.encoding, Flat(st.body)) else Flat(st.body);
    Reset(st.(emitted := st.emitted + [Emitted(Flat(st.headers) + body, st.invalid)]))
  }

  /** The header part of handleChunk, up to the test whether a body is being read. */
  function HeaderStage(rd: Reader, st: State, payload: bytes): State {
    Settle(if st.readingHeaders then TakeHeaders(rd, st, payload) else st)
  }

  function BodyStage(rd: Reader, st: State, payload: bytes, from: nat): (r: (State, Option<nat>))
    requires from <= |payload|
    ensures r.1.Some? ==> r.1.value > 0
  {
    var (t, next) := TakeBody(rd, st, payload, from);
    (if IsComplete(t) then Emit(rd, t) else t, next)
  }

  function Handle(rd: Reader, st: State, payload: bytes): State
    decreases |payload|
  {
    var from := if st.readingHeaders then BodyStart(payload) else 0;
    var t := HeaderStage(rd, st, payload);
    if t.readingHeaders then t
    else
      var (u, next) := BodyStage(rd, t, payload, from);
      if next.Some? && |payload| > next.value then Handle(rd, u, payload[next.value..]) else u
  }

  function HandleAll(rd: Reader, st: State, pieces: seq<bytes>): State {
    if pieces == [] then st else Handle(rd, HandleAll(rd, st, pieces[..|pieces| - 1]), pieces[|pieces| - 1])
  }

  /** Without chunked transfer a chunk is cut exactly where the current message ends. */
  lemma TakeBodyPlain(rd: Reader, st: State, payload: bytes, from: nat)
    requires from <= |payload| && !st.chunked
    ensures var (t, next) := TakeBody(rd, st, payload, from);
            var size, length := |payload| - from, st.contentLength;
            if 0 < length <= size then
              next == Some(from + length) && t == st.(contentLength := -1, body := st.body + [payload[from..from + length]])
            else
              next == None && t == st.(
                contentLength := if size > 0 && length > 0 then length - size else length,
                body := if size > 0 then st.body + [payload[from..]] else st.body)
  {
    assert payload[from..|payload|] == payload[from..];
  }

  lemma EmitPlain(rd: Reader, st: State)
    requires st.encoding == Unknown
    ensures var u := Emit(rd, st);
            && u == Reset(st).(emitted := st.emitted + [Emitted(st.Held(), st.invalid)])
            && u.Fresh() && u.Valid() && u.Bytes() == st.Bytes()
  {
    var u := Emit(rd, st);
    EmittedAppend(st.emitted, Emitted(st.Held(), st.invalid));
    assert Flat<byte>([]) == [] && u.headers == [] && u.body == [];
    assert u.emitted == st.emitted + [Emitted(st.Held(), st.invalid)];
    assert u.Bytes() == EmittedBytes(u.emitted) + ([] + []) == EmittedBytes(u.emitted);
  }

  /** What is emitted of a message: the body is decoded once, as a whole. */
  lemma EmitDecoded(rd: Reader, st: State)
    ensures var u := Emit(rd, st);
            && u.Fresh() && u.reassemble == st.reassemble && u.invalid == st.invalid
            && (st.body != [] ==>
                  u.emitted == st.emitted + [Emitted(Flat(st.headers) + if st.encoding == Unknown then Flat(st.body)
                                                                         else rd.decode(st.encoding, Flat(st.body)), st.invalid)])
  {
    FlatEmpty();
  }

  // ------------------------------------------------------------------ conservation

  /** The header bytes ask neither for chunked transfer nor for a content encoding. */
  predicate PlainBlock(rd: Reader, b: bytes) {
    !rd.parseHeaders(b).chunked && rd.parseHeaders(b).contentEncoding.None?
  }

  /** Nor do any header bytes read while a chunk is handled. */
  predicate PlainIn(rd: Reader, st: State, payload: bytes)
    decreases |payload|
  {
    var from := if st.readingHeaders then BodyStart(payload) else 0;
    var t := HeaderStage(rd, st, payload);
    var (u, next) := BodyStage(rd, t, payload, from);
    && (st.readingHeaders ==> PlainBlock(rd, payload[..from]))
    && (!t.readingHeaders && next.Some? && |payload| > next.value ==> PlainIn(rd, u, payload[next.value..]))
  }

  /** Nor do any read on a connection. */
  predicate PlainAll(rd: Reader, st: State, pieces: seq<bytes>) {
    forall i :: 0 <= i < |pieces| ==> PlainIn(rd, HandleAll(rd, st, pieces[..i]), pieces[i])
  }

  lemma {:induction false} HandleKeepsValid(rd: Reader, st: State, payload: bytes)
    requires st.Valid()
    ensures Handle(rd, st, payload).Valid()
    decreases |payload|
  {
    var from := if st.readingHeaders then BodyStart(payload) else 0;
    var t := HeaderStage(rd, st, payload);
    if !t.readingHeaders {
      var (u, next) := BodyStage(rd, t, payload, from);
      if next.Some? && |payload| > next.value {
        HandleKeepsValid(rd, u, payload[next.value..]);
      }
    }
  }

  lemma HeaderStageConserves(rd: Reader, st: State, payload: bytes)
    requires st.Valid() && !st.chunked && st.encoding == Unknown
    requires st.readingHeaders ==> PlainBlock(rd, payload[..BodyStart(payload)])
    ensures var t := HeaderStage(rd, st, payload);
            && t.Valid() && !t.chunked && t.encoding == Unknown && t.emitted == st.emitted
            && t.Bytes() == st.Bytes() + payload[..if st.readingHeaders then BodyStart(payload) else 0]
            && (t.readingHeaders ==> st.readingHeaders && payload[..BodyStart(payload)] == payload)
  {
    var x := payload[..BodyStart(payload)];
    if st.readingHeaders {
      assert payload[..|payload|] == payload;
      var t := TakeHeaders(rd, st, payload);
      assert t.headers == st.headers + [x] && t.body == [] && t.emitted == st.emitted;
      hide EndOfHeaders, EmittedBytes, Flat;
      FlatAppend(st.headers, x);
      FlatEmpty();
      MiddleAppend(EmittedBytes(st.emitted), Flat(st.headers), x, Flat(st.body));
    }
  }

  lemma FlatEmpty()
    ensures Flat<byte>([]) == []
  {
  }

  lemma MiddleAppend(a: bytes, b: bytes, x: bytes, e: bytes)
    requires e == []
    ensures a + ((b + x) + e) == a + (b + e) + x
  {
  }

  lemma BodyStageConserves(rd: Reader, st: State, payload: bytes, from: nat)
    requires st.Valid() && !st.readingHeaders && !st.chunked && st.encoding == Unknown && from <= |payload|
    ensures var (u, next) := BodyStage(rd, st, payload, from);
            var end := if next.Some? then next.value else |payload|;
            && u.Valid() && !u.chunked && u.encoding == Unknown
            && from <= end <= |payload| && u.Bytes() == st.Bytes() + payload[from..end]
  {
    hide TakeBody, Emit, Flat, EmittedBytes;
    var (t, next) := TakeBody(rd, st, payload, from);
    TakeBodyPlain(rd, st, payload, from);
    EmitPlain(rd, t);
    if t.body != st.body {
      FlatAppend(st.body, t.body[|st.body|]);
    }
  }

  /** Emitted payloads, header bytes and body bytes held are always all input bytes in order, whatever the headers read
      say short of chunked transfer or a content encoding. */
  lemma {:induction false} HandleConserves(rd: Reader, st: State, payload: bytes)
    requires st.Valid() && PlainIn(rd, st, payload) && !st.chunked && st.encoding == Unknown
    ensures var u := Handle(rd, st, payload);
            u.Valid() && !u.chunked && u.encoding == Unknown && u.Bytes() == st.Bytes() + payload
    decreases |payload|
  {
    hide TakeHeaders, TakeBody, Emit, Settle, BodyStage, HeaderStage, EndOfHeaders, Flat, EmittedBytes, PlainBlock;
    var from := if st.readingHeaders then BodyStart(payload) else 0;
    var t := HeaderStage(rd, st, payload);
    HeaderStageConserves(rd, st, payload);
    if !t.readingHeaders {
      var (u, next) := BodyStage(rd, t, payload, from);
      BodyStageConserves(rd, t, payload, from);
      if next.Some? && |payload| > next.value {
        HandleConserves(rd, u, payload[next.value..]);
        assert st.Bytes() + payload[..from] + payload[from..next.value] + payload[next.value..] == st.Bytes() + payload;
      } else {
        assert payload[from..|payload|] == payload[from..];
        assert st.Bytes() + payload[..from] + payload[from..] == st.Bytes() + payload;
      }
    }
  }

  lemma {:induction false} Conservation(rd: Reader, reassemble: bool, pieces: seq<bytes>)
    requires PlainAll(rd, Start(reassemble), pieces)
    ensures var u := HandleAll(rd, Start(reassemble), pieces);
            u.Valid() && !u.chunked && u.encoding == Unknown && u.Bytes() == Flat(pieces)
  {
    if pieces != [] {
      var n := |pieces| - 1;
      PlainBefore(rd, Start(reassemble), pieces);
      FlatNext(pieces, n);
      HandleAllNext(rd, Start(reassemble), pieces, n);
      assert pieces[..n + 1] == pieces;
      hide *;
      Conservation(rd, reassemble, pieces[..n]);
      HandleConserves(rd, HandleAll(rd, Start(reassemble), pieces[..n]), pieces[n]);
    }
  }

  lemma PlainBefore(rd: Reader, st: State, pieces: seq<bytes>)
    requires PlainAll(rd, st, pieces) && pieces != []
    ensures var n := |pieces| - 1;
            PlainAll(rd, st, pieces[..n]) && PlainIn(rd, HandleAll(rd, st, pieces[..n]), pieces[n])
  {
    hide HandleAll, PlainIn;
    var before := pieces[..|pieces| - 1];
    assert forall i :: 0 <= i < |before| ==> before[..i] == pieces[..i] && before[i] == pieces[i];
  }

  // ------------------------------------------------------------------ independence of segmentation

  /** A message that can be delimited: its header block ends where it should and gives the body length. */
  ghost predicate Delimited(rd: Reader, m: Message) {
    && EndOfHeaders(m.header) == |m.header| > 0 && m.body != []
    && rd.parseHeaders(m.header) == HeaderInfo(rd.parseHeaders(m.header).contentEncoding, Some(|m.body|), false, false)
  }

  ghost predicate AllDelimited(rd: Reader, msgs: seq<Message>) {
    forall i :: 0 <= i < |msgs| ==> Delimited(rd, msgs[i])
  }

  /** Inside message `m`, past its header block, with `off` of its bytes taken. */
  ghost predicate Inside(rd: Reader, st: State, m: Message, off: nat) {
    && st.reassemble && !st.invalid && !st.readingHeaders && !st.chunked
    && st.encoding == EncodingSaid(rd.parseHeaders(m.header), Unknown)
    && |m.header| <= off <= |m.Wire()| && st.contentLength == |m.Wire()| - off
    && Flat(st.headers) == m.header && Flat(st.body) == m.body[..off - |m.header|]
  }

  /** What the lines in the first `off` bytes of a header block say. */
  function InfoUpTo(rd: Reader, h: bytes, off: nat): HeaderInfo
    requires off <= |h|
  {
    if off == 0 then HeaderInfo(None, None, false, false) else rd.parseHeaders(h[..off])
  }

  /** In the header block of message `m`, with `off` of its bytes taken. */
  ghost predicate InHeader(rd: Reader, st: State, m: Message, off: nat) {
    && off < |m.header| && (off == 0 || HeaderCut(rd, m.header, off))
    && st.reassemble && !st.invalid && st.readingHeaders && !st.chunked
    && st.encoding == EncodingSaid(InfoUpTo(rd, m.header, off), Unknown)
    && st.headersSize == off && Flat(st.headers) == m.header[..off] && st.body == []
    && st.contentLength == LengthSaid(InfoUpTo(rd, m.header, off), -1)
  }

  /** The state after `off` bytes of the first message of `rest`. */
  ghost predicate At(rd: Reader, st: State, rest: seq<Message>, off: nat) {
    if off == 0 then st.Fresh() && st.reassemble && !st.invalid
    else rest != [] && off < |rest[0].Wire()| && if off < |rest[0].header| then InHeader(rd, st, rest[0], off) else Inside(rd, st, rest[0], off)
  }

  /** No part of a header block that stops before its end has a blank line. */
  lemma NoBlankLine(h: bytes, a: nat, b: nat)
    requires EndOfHeaders(h) == |h| > 0 && a <= b < |h|
    ensures EndOfHeaders(h[a..b]) == 0
  {
    var p := h[a..b];
    var r := EndOfHeaders(p);
    if r > 0 {
      SameSlice(h, a, b, r - 4, r);
      assert BlankLineAt(h, a + r - 4);
    }
  }

  lemma SameSlice(h: bytes, a: nat, b: nat, i: nat, j: nat)
    requires a <= b <= |h| && i <= j <= b - a
    ensures h[a..b][i..j] == h[a + i..a + j]
  {
    var x, y := h[a..b][i..j], h[a + i..a + j];
    assert |x| == |y| && forall k :: 0 <= k < |x| ==> x[k] == y[k];
  }

  /** What is left of it has one at its end. */
  lemma BlankLineLast(h: bytes, a: nat)
    requires EndOfHeaders(h) == |h| > 0 && a + 4 <= |h|
    ensures EndOfHeaders(h[a..]) == |h| - a
  {
    var p := h[a..];
    var r := EndOfHeaders(p);
    assert p[|p| - 4..|p|] == h[|h| - 4..|h|];
    assert BlankLineAt(h, |h| - 4) && BlankLineAt(p, |p| - 4);
    assert p[r - 4..r] == h[a + r - 4..a + r];
    assert BlankLineAt(h, a + r - 4);
  }

  /** A piece of the stream that starts in a header block. */
  lemma HeaderComesFirst(rd: Reader, payload: bytes, rest: seq<Message>, off: nat)
    requires payload != [] && Continues(rd, payload, rest, off) && AllDelimited(rd, rest)
    requires rest != [] && (off == 0 || HeaderCut(rd, rest[0].header, off))
    ensures var h, n := rest[0].header, off + |payload|;
            && off + 4 <= |h|
            && if n < |h| then payload == h[off..n] && HeaderCut(rd, h, n) && BodyStart(payload) == |payload| && EndOfHeaders(payload) == 0
               else
                 && BodyStart(payload) == EndOfHeaders(payload) == |h| - off && payload[..|h| - off] == h[off..]
                 && Continues(rd, payload[|h| - off..], rest, |h|)
  {
    hide Done, Left, Stream, EndOfHeaders, LinesApart;
    assert Delimited(rd, rest[0]);
    var h, n := rest[0].header, off + |payload|;
    BlankLineLength(h);
    FirstInStream(rest);
    var x := rest[0].body + Stream(rest[1..]);
    assert Stream(rest) == h + x;
    if n < |h| {
      StaysInFirst(rd, payload, rest, off);
      assert payload == h[off..n];
      NoBlankLine(h, off, n);
    } else {
      BlankLineLast(h, off);
      HeaderOfPiece(payload, h[off..], x, h + x, off);
      EndOfHeadersExtends(h[off..], payload[|h| - off..]);
      assert Stream(rest)[|h|..n] == payload[|h| - off..];
    }
  }

  lemma BlankLineLength(h: bytes)
    requires EndOfHeaders(h) == |h| > 0
    ensures |h| >= 4
  {
  }

  /** The lines of a piece add to what those before say. */
  lemma InfoAdds(rd: Reader, m: Message, a: nat, b: nat)
    requires Delimited(rd, m) && a < b <= |m.header| && (a == 0 || HeaderCut(rd, m.header, a)) && LineEnd(m.header, b)
    ensures var h := m.header;
            && InfoUpTo(rd, h, b) == Combine(InfoUpTo(rd, h, a), rd.parseHeaders(h[a..b]))
            && (a > 0 ==> var i := InfoUpTo(rd, h, a); !i.upgrade && !i.chunked)
  {
    var h := m.header;
    if a == 0 {
      assert h[0..b] == h[..b];
    } else {
      assert h[..|h|] == h && LineEnd(h, |h|) by { EndsWithLine(h); }
      assert rd.parseHeaders(h[..|h|]) == Combine(rd.parseHeaders(h[..a]), rd.parseHeaders(h[a..|h|]));
    }
  }

  lemma EndsWithLine(h: bytes)
    requires EndOfHeaders(h) == |h| > 0
    ensures LineEnd(h, |h|)
  {
    assert BlankLineAt(h, |h| - 4);
    assert h[|h| - 2..|h|] == h[|h| - 4..|h|][2..];
  }

  function LengthSaid(info: HeaderInfo, otherwise: int): int {
    if info.contentLength.Some? then info.contentLength.value else otherwise
  }

  /** Header bytes without a blank line and without Upgrade, up to 1024 in all, are held. */
  lemma HeaderHeld(rd: Reader, st: State, payload: bytes)
    requires st.readingHeaders && st.reassemble && EndOfHeaders(payload) == 0 && st.headersSize + |payload| <= 1024
    requires !rd.parseHeaders(payload).upgrade
    ensures var info := rd.parseHeaders(payload);
            HeaderStage(rd, st, payload) == Handle(rd, st, payload) ==
            st.(headersSize := st.headersSize + |payload|, headers := st.headers + [payload],
                encoding := EncodingSaid(info, st.encoding), contentLength := LengthSaid(info, st.contentLength),
                chunked := st.chunked || info.chunked)
  {
    hide EndOfHeaders;
    assert payload[..|payload|] == payload;
  }

  /** The end of the header block, when it says how long the body is. */
  lemma HeaderDone(rd: Reader, st: State, payload: bytes)
    requires var end := EndOfHeaders(payload);
             && st.readingHeaders && st.reassemble && end > 0 && !rd.parseHeaders(payload[..end]).upgrade
             && LengthSaid(rd.parseHeaders(payload[..end]), st.contentLength) >= 0
    ensures var end := EndOfHeaders(payload);
            var info := rd.parseHeaders(payload[..end]);
            HeaderStage(rd, st, payload) ==
            st.(readingHeaders := false, headersSize := st.headersSize + end, headers := st.headers + [payload[..end]],
                encoding := EncodingSaid(info, st.encoding), contentLength := LengthSaid(info, st.contentLength),
                chunked := st.chunked || info.chunked)
  {
    hide EndOfHeaders;
  }

  /** A piece that stays in the header block is held. */
  lemma HeaderStageHolds(rd: Reader, st: State, payload: bytes, m: Message, off: nat)
    requires InHeader(rd, st, m, off) && Delimited(rd, m) && off + |payload| < |m.header| && payload != []
    requires payload == m.header[off..off + |payload|] && HeaderCut(rd, m.header, off + |payload|) && EndOfHeaders(payload) == 0
    ensures var t := HeaderStage(rd, st, payload); InHeader(rd, t, m, off + |payload|) && t.emitted == st.emitted
  {
    var h, n := m.header, off + |payload|;
    InfoAdds(rd, m, off, n);
    EndsWithLine(h);
    InfoAdds(rd, m, n, |h|);
    hide EndOfHeaders, LinesApart, HeaderStage, Handle, LineEnd;
    assert Combine(InfoUpTo(rd, h, off), rd.parseHeaders(payload)) == InfoUpTo(rd, h, n);
    HeaderHeld(rd, st, payload);
    StaysInHeader(rd, st, HeaderStage(rd, st, payload), m, off, payload);
  }

  lemma StaysInHeader(rd: Reader, st: State, t: State, m: Message, off: nat, payload: bytes)
    requires InHeader(rd, st, m, off) && off + |payload| < |m.header| && payload == m.header[off..off + |payload|]
    requires HeaderCut(rd, m.header, off + |payload|)
    requires t == st.(headersSize := st.headersSize + |payload|, headers := st.headers + [payload],
                      contentLength := LengthSaid(InfoUpTo(rd, m.header, off + |payload|), -1),
                      encoding := EncodingSaid(InfoUpTo(rd, m.header, off + |payload|), Unknown))
    ensures InHeader(rd, t, m, off + |payload|)
  {
    hide Flat, HeaderCut, InfoUpTo;
    FlatAppend(st.headers, payload);
    assert m.header[..off] + payload == m.header[..off + |payload|];
  }

  /** A piece that brings the rest of the header block. */
  lemma HeaderStageFollows(rd: Reader, st: State, payload: bytes, m: Message, off: nat)
    requires InHeader(rd, st, m, off) && Delimited(rd, m)
    requires |m.header| - off <= |payload| && payload[..|m.header| - off] == m.header[off..]
    requires BodyStart(payload) == EndOfHeaders(payload) == |m.header| - off
    ensures Inside(rd, HeaderStage(rd, st, payload), m, |m.header|)
    ensures HeaderStage(rd, st, payload).emitted == st.emitted
  {
    var h := m.header;
    RestOfInfo(rd, m, off);
    InHeaderSays(rd, st, m, off);
    CombinedSays(InfoUpTo(rd, h, off), rd.parseHeaders(h[off..]), rd.parseHeaders(h), |m.body|);
    hide *;
    HeaderDone(rd, st, payload);
    ReachesBody(rd, st, HeaderStage(rd, st, payload), m, off);
  }

  lemma RestOfInfo(rd: Reader, m: Message, off: nat)
    requires Delimited(rd, m) && off < |m.header| && (off == 0 || HeaderCut(rd, m.header, off))
    ensures var h := m.header;
            && Combine(InfoUpTo(rd, h, off), rd.parseHeaders(h[off..])) == rd.parseHeaders(h)
            && rd.parseHeaders(h) == HeaderInfo(rd.parseHeaders(h).contentEncoding, Some(|m.body|), false, false)
  {
    var h := m.header;
    EndsWithLine(h);
    InfoAdds(rd, m, off, |h|);
    assert h[off..|h|] == h[off..] && h[..|h|] == h;
    hide EndOfHeaders, LinesApart, LineEnd, Combine;
  }

  lemma InHeaderSays(rd: Reader, st: State, m: Message, off: nat)
    requires InHeader(rd, st, m, off)
    ensures off < |m.header| && (off == 0 || HeaderCut(rd, m.header, off)) && st.reassemble && st.readingHeaders && !st.chunked
    ensures st.encoding == EncodingSaid(InfoUpTo(rd, m.header, off), Unknown)
    ensures st.contentLength == LengthSaid(InfoUpTo(rd, m.header, off), -1)
  {
    hide HeaderCut, Flat;
  }

  /** What is said later counts. */
  lemma CombinedSays(a: HeaderInfo, b: HeaderInfo, whole: HeaderInfo, n: nat)
    requires Combine(a, b) == whole && whole.contentLength == Some(n) && !whole.upgrade && !whole.chunked
    ensures !b.upgrade && !b.chunked && LengthSaid(b, LengthSaid(a, -1)) == n
    ensures EncodingSaid(b, EncodingSaid(a, Unknown)) == EncodingSaid(whole, Unknown)
  {
  }

  lemma ReachesBody(rd: Reader, st: State, t: State, m: Message, off: nat)
    requires InHeader(rd, st, m, off)
    requires t == st.(readingHeaders := false, headersSize := t.headersSize, headers := st.headers + [m.header[off..]],
                      contentLength := |m.body|, encoding := EncodingSaid(rd.parseHeaders(m.header), Unknown))
    ensures Inside(rd, t, m, |m.header|)
  {
    hide Flat, HeaderCut;
    FlatAppend(st.headers, m.header[off..]);
    assert m.header[..off] + m.header[off..] == m.header;
    FlatEmpty();
    assert m.body[..0] == [];
  }

  lemma BodyStageFollows(rd: Reader, st: State, payload: bytes, from: nat, rest: seq<Message>, off: nat)
    requires rest != [] && off < |rest[0].Wire()| && Inside(rd, st, rest[0], off) && from <= |payload|
    requires Continues(rd, payload[from..], rest, off)
    ensures var (u, next) := BodyStage(rd, st, payload, from);
            var n, w := off + |payload| - from, rest[0].Wire();
            if n < |w| then next.None? && Inside(rd, u, rest[0], n) && u.emitted == st.emitted
            else
              && next == Some(from + |w| - off) && u.Fresh() && u.reassemble && !u.invalid
              && u.emitted == st.emitted + [Emitted(Shown(rd, rest[0]), false)]
  {
    hide Done, Left, Stream, Continues, TakeBody, Emit, Flat, EmittedBytes;
    var (t, next) := TakeBody(rd, st, payload, from);
    TakeBodyPlain(rd, st, payload, from);
    EmitDecoded(rd, t);
    BodyPiece(rd, payload, from, rest, off);
    if t.body != st.body {
      FlatAppend(st.body, t.body[|st.body|]);
    }
  }

  lemma SettledInside(rd: Reader, st: State, payload: bytes, m: Message, off: nat)
    requires Inside(rd, st, m, off) && off < |m.Wire()|
    ensures HeaderStage(rd, st, payload) == st
  {
  }

  /** Where the header part leaves a piece: past the header block, if that is complete. */
  function HeaderEnd(m: Message, off: nat, n: nat): nat {
    if off < |m.header| then Min(|m.header|, n) else off
  }

  /** After the header part the header block is held so far, or the first message is being read past it. */
  lemma HeaderStageReaches(rd: Reader, st: State, payload: bytes, rest: seq<Message>, off: nat, from: nat)
    requires At(rd, st, rest, off) && AllDelimited(rd, rest) && payload != [] && Continues(rd, payload, rest, off)
    requires from == if st.readingHeaders then BodyStart(payload) else 0
    ensures rest != [] && from <= |payload| && off + from == HeaderEnd(rest[0], off, off + |payload|) < |rest[0].Wire()|
    ensures var t := HeaderStage(rd, st, payload);
            && t.emitted == st.emitted && t.readingHeaders == (off + |payload| < |rest[0].header|)
            && if t.readingHeaders then At(rd, t, rest, off + |payload|)
               else Inside(rd, t, rest[0], off + from) && Continues(rd, payload[from..], rest, off + from)
  {
    hide Done, Left, Stream, Continues, EndOfHeaders, HeaderStage, Flat, BodyStart, HeaderCut;
    MoreToCome(rd, payload, rest, off);
    var m := rest[0];
    assert Delimited(rd, m);
    if off < |m.header| {
      if off == 0 {
        FreshIsInHeader(rd, st, m);
      }
      HeaderComesFirst(rd, payload, rest, off);
      if off + |payload| < |m.header| {
        HeaderStageHolds(rd, st, payload, m, off);
      } else {
        HeaderStageFollows(rd, st, payload, m, off);
      }
    } else {
      SettledInside(rd, st, payload, m, off);
      assert payload[0..] == payload;
    }
  }

  lemma FreshIsInHeader(rd: Reader, st: State, m: Message)
    requires st.Fresh() && st.reassemble && !st.invalid && m.header != []
    ensures InHeader(rd, st, m, 0)
  {
  }

  /** What the first `n` bytes of the stream of `rest` lead to, when `before` had been emitted at its start. */
  ghost predicate Follows(rd: Reader, u: State, before: seq<Emitted>, rest: seq<Message>, n: nat) {
    At(rd, u, rest[Done(rest, n)..], Left(rest, n)) && u.emitted == before + Payloads(rd, rest[..Done(rest, n)])
  }

  lemma FollowsNothing(rd: Reader, u: State, rest: seq<Message>)
    requires At(rd, u, rest, 0) && AllDelimited(rd, rest)
    ensures Follows(rd, u, u.emitted, rest, 0)
  {
    assert forall i :: 0 <= i < |rest| ==> Delimited(rd, rest[i]);
    DoneNone(rest);
    assert rest[0..] == rest && Payloads(rd, rest[..0]) == [];
  }

  lemma FollowsFirst(rd: Reader, payload: bytes, rest: seq<Message>, off: nat, u: State, before: seq<Emitted>)
    requires Continues(rd, payload, rest, off) && rest != [] && off < |rest[0].Wire()|
    requires var n, w := off + |payload|, rest[0].Wire();
             if n < |w| then At(rd, u, rest, n) && u.emitted == before
             else Follows(rd, u, before + [Emitted(Shown(rd, rest[0]), false)], rest[1..], n - |w|)
    ensures Follows(rd, u, before, rest, off + |payload|)
  {
    hide Left, Stream, Continues, At;
    if off + |payload| < |rest[0].Wire()| {
      StaysInFirst(rd, payload, rest, off);
      assert rest[0..] == rest && Payloads(rd, rest[..0]) == [];
    } else {
      CompletesFirst(rd, payload, rest, off);
      PayloadsStep(rd, rest, Done(rest, off + |payload|));
    }
  }

  /** One piece of the stream, from wherever the one before it stopped: every message it completes is emitted. */
  lemma {:induction false} HandleFollows(rd: Reader, st: State, payload: bytes, rest: seq<Message>, off: nat)
    requires At(rd, st, rest, off) && AllDelimited(rd, rest) && payload != [] && Continues(rd, payload, rest, off)
    ensures Follows(rd, Handle(rd, st, payload), st.emitted, rest, off + |payload|)
    decreases |payload|, 1
  {
    hide Stream, Continues, HeaderStage, BodyStage, Flat, BodyStart, Delimited, Follows, HeaderCut, Inside, InHeader;
    var from := if st.readingHeaders then BodyStart(payload) else 0;
    HeaderStageReaches(rd, st, payload, rest, off, from);
    var t, w, n := HeaderStage(rd, st, payload), rest[0].Wire(), off + |payload|;
    if t.readingHeaders {
      FollowsFirst(rd, payload, rest, off, t, st.emitted);
    } else {
      BodyFollows(rd, st, payload, rest, off, from);
    }
  }

  /** The rest of a piece whose header part is past the header block. */
  lemma {:induction false} BodyFollows(rd: Reader, st: State, payload: bytes, rest: seq<Message>, off: nat, from: nat)
    requires AllDelimited(rd, rest) && rest != [] && from == (if st.readingHeaders then BodyStart(payload) else 0) <= |payload|
    requires payload != [] && off + from < |rest[0].Wire()|
    requires var t := HeaderStage(rd, st, payload);
             !t.readingHeaders && t.emitted == st.emitted && Inside(rd, t, rest[0], off + from)
    requires Continues(rd, payload[from..], rest, off + from)
    ensures Follows(rd, Handle(rd, st, payload), st.emitted, rest, off + |payload|)
    decreases |payload|, 0
  {
    hide Stream, Continues, HeaderStage, BodyStage, Flat, BodyStart, Delimited, Follows, HeaderCut, InHeader;
    var t, w, tail, n := HeaderStage(rd, st, payload), rest[0].Wire(), rest[1..], off + |payload|;
    BodyStageFollows(rd, t, payload, from, rest, off + from);
    var (u, next) := BodyStage(rd, t, payload, from);
    if n >= |w| {
      var b := payload[from..];
      CompletesFirst(rd, b, rest, off + from);
      assert AllDelimited(rd, tail);
      if n == |w| {
        FollowsNothing(rd, u, tail);
      } else {
        assert payload[next.value..] == b[|w| - (off + from)..];
        HandleFollows(rd, u, payload[next.value..], tail, 0);
      }
    }
    FollowsFirst(rd, payload[from..], rest, off + from, Handle(rd, st, payload), st.emitted);
  }

  // ------------------------------------------------------------------ a whole connection

  /** Piece boundaries lie inside a header block only where that may be cut. */
  ghost predicate CutsCleanly(rd: Reader, pieces: seq<bytes>, msgs: seq<Message>) {
    forall j :: 0 <= j <= |pieces| ==> EndsCleanly(rd, msgs, |Flat(pieces[..j])|)
  }

  /** A piece of a stream starting at `n`, seen from the messages still to come then. */
  lemma ContinuesAt(rd: Reader, x: bytes, msgs: seq<Message>, n: nat)
    requires Continues(rd, x, msgs, n)
    ensures Continues(rd, x, msgs[Done(msgs, n)..], Left(msgs, n))
    ensures var rest, off := msgs[Done(msgs, n)..], Left(msgs, n);
            msgs[Done(msgs, n + |x|)..] == rest[Done(rest, off + |x|)..] && Left(msgs, n + |x|) == Left(rest, off + |x|)
  {
    hide Done, Left, Stream;
    var rest, off := msgs[Done(msgs, n)..], Left(msgs, n);
    StreamSuffix(msgs, n);
    DoneAdds(msgs, n, |x|);
    assert rest[Done(rest, off + |x|)..] == msgs[Done(msgs, n + |x|)..];
    assert Stream(rest)[off..off + |x|] == Stream(msgs)[n..][..|x|];
    assert Stream(msgs)[n..n + |x|] == Stream(msgs)[n..][..|x|];
  }

  lemma PieceContinues(rd: Reader, pieces: seq<bytes>, msgs: seq<Message>, j: nat)
    requires j < |pieces| && Flat(pieces) == Stream(msgs) && CutsCleanly(rd, pieces, msgs)
    ensures Continues(rd, pieces[j], msgs, |Flat(pieces[..j])|)
  {
    hide Flat, EndsCleanly, Stream;
    var n := |Flat(pieces[..j])|;
    FlatNext(pieces, j);
    FlatSplit(pieces, j + 1);
    assert EndsCleanly(rd, msgs, |Flat(pieces[..j + 1])|);
    assert Flat(pieces)[n..n + |pieces[j]|] == pieces[j];
  }

  lemma FollowsNext(rd: Reader, u: State, x: bytes, msgs: seq<Message>, n: nat)
    requires Follows(rd, u, [], msgs, n) && AllDelimited(rd, msgs) && x != [] && Continues(rd, x, msgs, n)
    ensures Follows(rd, Handle(rd, u, x), [], msgs, n + |x|)
  {
    hide Done, Left, Stream, Continues, Handle, At, Payloads, Delimited;
    var rest, off := msgs[Done(msgs, n)..], Left(msgs, n);
    ContinuesAt(rd, x, msgs, n);
    DoneAdds(msgs, n, |x|);
    assert AllDelimited(rd, rest);
    HandleFollows(rd, u, x, rest, off);
    PayloadsConcat(rd, msgs, Done(msgs, n), Done(rest, off + |x|));
  }

  lemma HandleAllNext(rd: Reader, st: State, pieces: seq<bytes>, j: nat)
    requires j < |pieces|
    ensures HandleAll(rd, st, pieces[..j + 1]) == Handle(rd, HandleAll(rd, st, pieces[..j]), pieces[j])
  {
    hide Handle;
    assert pieces[..j + 1][..j] == pieces[..j];
  }

  lemma FollowsStart(rd: Reader, pieces: seq<bytes>, msgs: seq<Message>)
    requires AllDelimited(rd, msgs)
    ensures Follows(rd, HandleAll(rd, Start(true), pieces[..0]), [], msgs, |Flat(pieces[..0])|)
  {
    assert pieces[..0] == [];
    FollowsNothing(rd, Start(true), msgs);
  }

  /** A stream of delimited messages, cut into chunks none of which is empty; a header block may be cut at line ends within
      its first 1024 bytes. */
  ghost predicate CutOf(rd: Reader, pieces: seq<bytes>, msgs: seq<Message>) {
    && AllDelimited(rd, msgs) && Flat(pieces) == Stream(msgs) && CutsCleanly(rd, pieces, msgs)
    && forall j :: 0 <= j < |pieces| ==> pieces[j] != []
  }

  lemma {:induction false} PrefixFollows(rd: Reader, pieces: seq<bytes>, msgs: seq<Message>, j: nat)
    requires CutOf(rd, pieces, msgs) && j <= |pieces|
    ensures Follows(rd, HandleAll(rd, Start(true), pieces[..j]), [], msgs, |Flat(pieces[..j])|)
  {
    hide Handle, Continues, Follows, CutsCleanly, Flat, Stream, AllDelimited, HandleAll, Start;
    if j == 0 {
      FollowsStart(rd, pieces, msgs);
    } else {
      var u := HandleAll(rd, Start(true), pieces[..j - 1]);
      PrefixFollows(rd, pieces, msgs, j - 1);
      PieceContinues(rd, pieces, msgs, j - 1);
      FlatNext(pieces, j - 1);
      FollowsNext(rd, u, pieces[j - 1], msgs, |Flat(pieces[..j - 1])|);
      HandleAllNext(rd, Start(true), pieces, j - 1);
    }
  }

  /** However a stream of delimited messages is cut into chunks, header blocks at line ends within their first 1024 bytes
      and not before the blank line, the listener is given exactly the messages, in order, each once and not as raw, and
      nothing is held back. */
  lemma SegmentationIndependence(rd: Reader, pieces: seq<bytes>, msgs: seq<Message>)
    requires CutOf(rd, pieces, msgs)
    ensures var u := HandleAll(rd, Start(true), pieces); u.emitted == Payloads(rd, msgs) && u.Fresh()
  {
    PrefixFollows(rd, pieces, msgs, |pieces|);
    FollowsAll(rd, HandleAll(rd, Start(true), pieces), msgs);
    hide Follows, AllDelimited, CutsCleanly, HandleAll, Stream, Flat, Payloads;
    assert pieces[..|pieces|] == pieces;
  }

  lemma FollowsAll(rd: Reader, u: State, msgs: seq<Message>)
    ensures AllDelimited(rd, msgs) && Follows(rd, u, [], msgs, |Stream(msgs)|) ==> u.emitted == Payloads(rd, msgs) && u.Fresh()
  {
    hide Stream, EndOfHeaders;
    if AllDelimited(rd, msgs) {
      assert forall i :: 0 <= i < |msgs| ==> Delimited(rd, msgs[i]);
      DoneAll(msgs);
      assert msgs[..|msgs|] == msgs && msgs[|msgs|..] == [];
    }
  }

  lemma {:induction false} HandleExtends(rd: Reader, st: State, payload: bytes)
    ensures st.emitted <= Handle(rd, st, payload).emitted
    decreases |payload|
  {
    hide EndOfHeaders, Flat;
    var from := if st.readingHeaders then BodyStart(payload) else 0;
    var t := HeaderStage(rd, st, payload);
    if !t.readingHeaders {
      var (u, next) := BodyStage(rd, t, payload, from);
      if next.Some? && |payload| > next.value {
        HandleExtends(rd, u, payload[next.value..]);
      }
    }
  }

  lemma FirstHeader(rd: Reader, h: bytes, length: nat, payload: bytes)
    requires BodyStart(payload) == |h| && payload[..|h|] == h && EndOfHeaders(payload) > 0
    requires rd.parseHeaders(h) == HeaderInfo(None, Some(length), false, false)
    ensures HeaderStage(rd, Start(true), payload) == Start(true).(readingHeaders := false, contentLength := length,
              headersSize := |h|, headers := [h])
  {
    assert Start(true).headers + [h] == [h];
  }

  lemma FirstBody(rd: Reader, t: State, h: bytes, body: bytes, x: bytes, payload: bytes)
    requires !t.chunked && t.encoding == Unknown && t.reassemble && !t.invalid
    requires t.headers == [h] && t.body == [] && t.emitted == [] && t.contentLength == |body| && x != []
    requires |h| <= |payload| && payload[|h|..] == body + x
    ensures BodyStage(rd, t, payload, |h|).0.emitted == [Emitted(h + if body != [] then body else x, false)]
  {
    hide Flat, TakeBody, Emit, EmittedBytes;
    var cut := if body != [] then body else x;
    assert payload[|h|..|h| + |body|] == payload[|h|..][..|body|] == body;
    TakeBodyPlain(rd, t, payload, |h|);
    EmitPlain(rd, TakeBody(rd, t, payload, |h|).0);
    FlatEmpty();
    FlatAppend([], h);
    FlatAppend([], cut);
    assert [] + [h] == [h] && t.body + [cut] == [cut];
    assert Flat([h]) == h && Flat([cut]) == cut;
    assert TakeBody(rd, t, payload, |h|).0.body == [cut];
    assert t.emitted + [Emitted(h + cut, false)] == [Emitted(h + cut, false)];
  }

  /** Two messages in one chunk are told apart exactly when the first announces a body: after Content-Length 0
      the rest of the chunk is taken for its body. */
  lemma CoalescedMessages(rd: Reader, m: Message, x: bytes)
    requires EndOfHeaders(m.header) == |m.header| > 0 && x != []
    requires rd.parseHeaders(m.header) == HeaderInfo(None, Some(|m.body|), false, false)
    ensures var e := Handle(rd, Start(true), m.Wire() + x).emitted;
            e != [] && (e[0].payload == m.Wire() <==> m.body != [])
  {
    var payload, h := m.Wire() + x, m.header;
    assert payload == h + (m.body + x);
    EndOfHeadersExtends(h, m.body + x);
    assert payload[..|h|] == h && payload[|h|..] == m.body + x;
    FirstHeader(rd, h, |m.body|, payload);
    var t := HeaderStage(rd, Start(true), payload);
    FirstBody(rd, t, h, m.body, x, payload);
    hide EndOfHeaders, HeaderStage, BodyStage;
    var (u, next) := BodyStage(rd, t, payload, |h|);
    if next.Some? && |payload| > next.value {
      HandleExtends(rd, u, payload[next.value..]);
    }
  }

  // ------------------------------------------------------------------ header blocks in pieces

  /** Header bytes with neither a blank line nor an Upgrade line. */
  predicate Unfinished(rd: Reader, payload: bytes) {
    EndOfHeaders(payload) == 0 && !rd.parseHeaders(payload).upgrade
  }

  /** Header bytes in pieces, without a blank line and at most 1024 in all, are held: nothing is emitted. */
  lemma {:induction false} HeadersHeld(rd: Reader, st: State, pieces: seq<bytes>)
    requires st.Fresh() && st.reassemble && (forall i :: 0 <= i < |pieces| ==> Unfinished(rd, pieces[i]))
    requires |Flat(pieces)| <= 1024
    ensures var u := HandleAll(rd, st, pieces);
            && u.emitted == st.emitted && u.readingHeaders && u.reassemble && u.invalid == st.invalid && u.body == []
            && Flat(u.headers) == Flat(pieces) && u.headersSize == |Flat(pieces)|
  {
    if pieces != [] {
      var n := |pieces| - 1;
      HeadersHeld(rd, st, pieces[..n]);
      var u := HandleAll(rd, st, pieces[..n]);
      hide EndOfHeaders, HeaderStage, Handle;
      HeaderHeld(rd, u, pieces[n]);
      FlatAppend(u.headers, pieces[n]);
    }
  }

  /** A further piece without a blank line that goes past 1024 bytes ends that: all that was held is emitted with it, as
      raw, and nothing is reassembled any more. */
  lemma HeadersTooLong(rd: Reader, st: State, pieces: seq<bytes>, x: bytes)
    requires st.Fresh() && st.reassemble && (forall i :: 0 <= i < |pieces| ==> Unfinished(rd, pieces[i]))
    requires |Flat(pieces)| <= 1024 < |Flat(pieces)| + |x| && EndOfHeaders(x) == 0
    ensures var u := Handle(rd, HandleAll(rd, st, pieces), x);
            u.emitted == st.emitted + [Emitted(Flat(pieces) + x, true)] && !u.reassemble && u.invalid && u.Fresh()
  {
    HeadersHeld(rd, st, pieces);
    GivenUp(rd, HandleAll(rd, st, pieces), x);
    hide Flat, Handle;
    FlatAppend(HandleAll(rd, st, pieces).headers, x);
  }

  lemma GivenUp(rd: Reader, st: State, x: bytes)
    requires st.readingHeaders && st.reassemble && st.body == [] && EndOfHeaders(x) == 0 && st.headersSize + |x| > 1024
    ensures var u := Handle(rd, st, x);
            u.emitted == st.emitted + [Emitted(Flat(st.headers + [x]), true)] && !u.reassemble && u.invalid && u.Fresh()
  {
    hide EndOfHeaders, Flat;
    assert x[..|x|] == x;
    FlatEmpty();
    var t := HeaderStage(rd, st, x);
    assert !t.readingHeaders && t.headers == st.headers + [x] && t.body == [] && !t.reassemble && t.invalid;
    var (t1, next) := TakeBody(rd, t, x, |x|);
    assert t1.body == [] && next == None && t1.headers == t.headers && t1.emitted == st.emitted && IsComplete(t1);
    assert Flat(t1.headers) + Flat(t1.body) == Flat(t1.headers);
  }

  /** Once nothing is reassembled any more, no byte is held after any chunk. */
  lemma {:induction false} NothingHeld(rd: Reader, st: State, payload: bytes)
    requires !st.reassemble && st.Valid()
    ensures var u := Handle(rd, st, payload); !u.reassemble && u.Held() == [] && |u.emitted| > |st.emitted|
    decreases |payload|
  {
    hide EndOfHeaders, Flat;
    FlatEmpty();
    var from := if st.readingHeaders then BodyStart(payload) else 0;
    var (u, next) := BodyStage(rd, HeaderStage(rd, st, payload), payload, from);
    if next.Some? && |payload| > next.value {
      NothingHeld(rd, u, payload[next.value..]);
    }
  }

  /** An Upgrade line ends reassembly for good: the chunk is emitted, and nothing is held from then on. */
  lemma UpgradeStops(rd: Reader, st: State, payload: bytes)
    requires st.Valid() && st.readingHeaders && rd.parseHeaders(payload[..BodyStart(payload)]).upgrade
    ensures var u := Handle(rd, st, payload); !u.reassemble && u.Held() == [] && |u.emitted| > |st.emitted|
  {
    hide EndOfHeaders, Flat;
    FlatEmpty();
    var (u, next) := BodyStage(rd, HeaderStage(rd, st, payload), payload, BodyStart(payload));
    if next.Some? && |payload| > next.value {
      NothingHeld(rd, u, payload[next.value..]);
    }
  }

  // ------------------------------------------------------------------ the class

  class HTTPReassembly {
    const reader: Reader
    var mReadingHeaders: bool
    var mChunkedEncoding: bool
    var mContentEncoding: ContentEncoding
    var mContentLength: int
    var mHeadersSize: nat
    var mHeaders: seq<bytes>
    var mBody: seq<bytes>
    var mReassembleChunks: bool
    var mInvalidHttp: bool
    var emitted: seq<Emitted> // what the listener was given so far

    ghost function View(): State
      reads this
    {
      State(mReadingHeaders, mChunkedEncoding, mContentEncoding, mContentLength, mHeadersSize, mHeaders, mBody,
            mReassembleChunks, mInvalidHttp, emitted)
    }

    constructor (reassembleChunks: bool, reader: Reader)
      ensures this.reader == reader && View() == Start(reassembleChunks)
    {
      this.reader := reader;
      mReassembleChunks, mInvalidHttp, emitted := reassembleChunks, false, [];
      mReadingHeaders, mContentEncoding, mChunkedEncoding, mContentLength := true, Unknown, false, -1;
      mHeadersSize, mHeaders, mBody := 0, [], [];
    }

    method DoReset()
      modifies this
      ensures View() == Reset(old(View()))
    {
      mReadingHeaders := true;
      mContentEncoding := Unknown;
      mChunkedEncoding := false;
      mContentLength := -1;
      mHeadersSize := 0;
      mHeaders := [];
      mBody := [];
    }

    static method ReassembleChunks(chunks: seq<bytes>) returns (reassembly: bytes)
      requires chunks != []
      ensures reassembly == Flat(chunks)
    {
      if |chunks| == 1 {
        assert chunks[..0] == [];
        return chunks[0];
      }
      reassembly := [];
      var i := 0;
      while i < |chunks|
        invariant 0 <= i <= |chunks| && reassembly == Flat(chunks[..i])
      {
        FlatNext(chunks, i);
        reassembly := reassembly + chunks[i];
        i := i + 1;
      }
      assert chunks[..i] == chunks;
    }

    /** What the header lines say. */
    method TakeInfo(info: HeaderInfo)
      modifies `mContentEncoding, `mContentLength, `mReassembleChunks, `mChunkedEncoding
      ensures mContentEncoding == if info.contentEncoding.Some? then info.contentEncoding.value else old(mContentEncoding)
      ensures mContentLength == if info.contentLength.Some? then info.contentLength.value else old(mContentLength)
      ensures mReassembleChunks == (old(mReassembleChunks) && !info.upgrade)
      ensures mChunkedEncoding == (old(mChunkedEncoding) || info.chunked)
    {
      if info.contentEncoding.Some? {
        mContentEncoding := info.contentEncoding.value;
      }
      if info.contentLength.Some? {
        mContentLength := info.contentLength.value;
      }
      if info.upgrade {
        mReassembleChunks := false;
      }
      if info.chunked {
        mChunkedEncoding := true;
      }
    }

    /** The header bytes are kept; without an end of the headers they are the whole chunk, up to a maximum size. */
    method KeepHeaders(payload: bytes, headersEnd: nat) returns (bodyStart: nat)
      requires headersEnd <= |payload|
      modifies `mReadingHeaders, `mReassembleChunks, `mInvalidHttp, `mHeaders
      ensures bodyStart == if headersEnd > 0 then headersEnd else |payload|
      ensures mHeaders == old(mHeaders) + [payload[..bodyStart]]
      ensures var over := headersEnd == 0 && mHeadersSize > MAX_HEADERS_SIZE;
              && mReadingHeaders == (old(mReadingHeaders) && headersEnd == 0 && !over)
              && mReassembleChunks == (old(mReassembleChunks) && !over) && mInvalidHttp == (old(mInvalidHttp) || over)
    {
      if headersEnd > 0 {
        mReadingHeaders := false;
        bodyStart := headersEnd;
        mHeaders := mHeaders + [payload[..bodyStart]];
      } else {
        if mHeadersSize > MAX_HEADERS_SIZE {
          mReadingHeaders := false;
          mReassembleChunks := false;
          mInvalidHttp := true;
        }
        assert payload[..|payload|] == payload;
        mHeaders := mHeaders + [payload];
        bodyStart := |payload|;
      }
    }

    method ReadHeaders(payload: bytes) returns (bodyStart: nat)
      requires mReadingHeaders
      modifies this
      ensures bodyStart == BodyStart(payload) && View() == TakeHeaders(reader, old(View()), payload)
    {
      hide EndOfHeadersFrom;
      var headersEnd := EndOfHeaders(payload);
      var headersSize := if headersEnd == 0 then |payload| else headersEnd;
      mHeadersSize := mHeadersSize + headersSize;
      TakeInfo(reader.parseHeaders(payload[..headersSize]));
      bodyStart := KeepHeaders(payload, headersEnd);
    }

    method ReadBody(payload: bytes, from: nat) returns (newBodyStart: int)
      requires from <= |payload|
      modifies this
      ensures var (t, next) := TakeBody(reader, old(View()), payload, from);
              View() == t && newBodyStart == if next.Some? then next.value else -1
    {
      var bodyStart, bodySize, chunkedComplete := from, |payload| - from, false;
      newBodyStart := -1;
      if mChunkedEncoding && mContentLength < 0 && bodySize > 0 {
        var line := reader.parseSizeLine(payload[bodyStart..]);
        if line.Some? && line.value.value.Some? {
          mContentLength := line.value.value.value;
          bodyStart := bodyStart + line.value.length + 2;
          bodySize := bodySize - (line.value.length + 2);
          chunkedComplete := mContentLength == 0;
        }
      }
      if bodySize > 0 {
        if mContentLength > 0 {
          if bodySize < mContentLength {
            mContentLength := mContentLength - bodySize;
          } else {
            bodySize := mContentLength;
            newBodyStart := bodyStart + mContentLength;
            mContentLength := -1;
            if mChunkedEncoding {
              newBodyStart := newBodyStart + 2;
            }
          }
        }
        mBody := mBody + [payload[bodyStart..bodyStart + bodySize]];
      }
      if chunkedComplete || !mReassembleChunks {
        mChunkedEncoding := false;
      }
    }

    /** Hands the headers and the decoded body to the listener and starts over. */
    method EmitMessage()
      requires View().Valid() && !mReadingHeaders
      modifies this
      ensures View() == Emit(reader, old(View()))
    {
      var headers := ReassembleChunks(mHeaders);
      var toAdd := headers;
      if mBody != [] {
        var body := ReassembleChunks(mBody);
        if mContentEncoding != Unknown {
          body := reader.decode(mContentEncoding, body);
        }
        toAdd := headers + body;
      } else {
        assert headers + Flat(mBody) == headers;
      }
      emitted := emitted + [Emitted(toAdd, mInvalidHttp)];
      DoReset();
    }

    method HandleHeaders(payload: bytes) returns (bodyStart: nat)
      requires View().Valid()
      modifies this
      ensures View() == HeaderStage(reader, old(View()), payload)
      ensures bodyStart == if old(mReadingHeaders) then BodyStart(payload) else 0
    {
      hide TakeHeaders, BodyStart;
      bodyStart := 0;
      if mReadingHeaders {
        bodyStart := ReadHeaders(payload);
      }
      if !mReadingHeaders && mContentLength < 0 && !mChunkedEncoding && mReassembleChunks {
        mReassembleChunks := false;
      }
      if !mReassembleChunks {
        mReadingHeaders := false;
      }
    }

    method HandleChunk(payload: bytes)
      requires View().Valid()
      modifies this
      ensures View().Valid() && View() == Handle(reader, old(View()), payload)
      decreases |payload|
    {
      hide TakeHeaders, TakeBody, Emit, BodyStart, HeaderStage;
      HandleKeepsValid(reader, View(), payload);
      StagesKeepValid(reader, View(), payload);
      var bodyStart := HandleHeaders(payload);
      if !mReadingHeaders {
        var newBodyStart := ReadBody(payload, bodyStart);
        if (mContentLength <= 0 || !mReassembleChunks) && !mChunkedEncoding {
          EmitMessage();
        }
        if newBodyStart > 0 && |payload| > newBodyStart {
          HandleChunk(payload[newBodyStart..]);
        }
      }
    }
  }

  lemma StagesKeepValid(rd: Reader, st: State, payload: bytes)
    requires st.Valid()
    ensures var from := if st.readingHeaders then BodyStart(payload) else 0;
            var t := HeaderStage(rd, st, payload);
            && from <= |payload| && t.Valid()
            && (!t.readingHeaders ==>
                 && TakeBody(rd, t, payload, from).0.Valid() && !TakeBody(rd, t, payload, from).0.readingHeaders
                 && BodyStage(rd, t, payload, from).0.Valid())
  {
  }

  /** Feeds the chunks of a connection to a new reassembler. */
  method ReassembleAll(reader: Reader, reassemble: bool, pieces: seq<bytes>) returns (emitted: seq<Emitted>)
    ensures emitted == HandleAll(reader, Start(reassemble), pieces).emitted
    ensures forall msgs :: reassemble && CutOf(reader, pieces, msgs) ==> emitted == Payloads(reader, msgs)
  {
    var reassembly := new HTTPReassembly(reassemble, reader);
    var i := 0;
    while i < |pieces|
      invariant 0 <= i <= |pieces| && reassembly.reader == reader
      invariant reassembly.View().Valid() && reassembly.View() == HandleAll(reader, Start(reassemble), pieces[..i])
    {
      hide Handle;
      HandleAllNext(reader, Start(reassemble), pieces, i);
      reassembly.HandleChunk(pieces[i]);
      i := i + 1;
    }
    assert pieces[..i] == pieces;
    emitted := reassembly.emitted;
    forall msgs | reassemble && CutOf(reader, pieces, msgs)
      ensures emitted == Payloads(reader, msgs)
    {
      SegmentationIndependence(reader, pieces, msgs);
    }
  }
}
