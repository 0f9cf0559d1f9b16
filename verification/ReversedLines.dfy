/** ReversedLinesFileReader: the lines of a file from the last to the first, read in blocks from its end.
    The specification splits the whole content forwards and knows nothing of blocks. */
module ReversedLines {
  import opened Words

  const CR: byte := 13
  const LF: byte := 10

  /** The newline sequences, in the order they are tried: CR LF comes before LF. */
  const NEW_LINE_SEQUENCES: seq<bytes> := [[CR, LF], [LF], [CR]]

  // ------------------------------------------------------------------ what is to be read

  predicate IsNewLineByte(b: byte) {
    b == CR || b == LF
  }

  /** The segments of `s` between line ends, from left to right; CR LF is one line end. */
  function Split(s: bytes): (r: seq<bytes>)
    ensures |r| >= 1
  {
    if s == [] then [[]]
    else if s[0] == CR && |s| > 1 && s[1] == LF then [[]] + Split(s[2..])
    else if IsNewLineByte(s[0]) then [[]] + Split(s[1..])
    else
      var r := Split(s[1..]);
      [[s[0]] + r[0]] + r[1..]
  }

  function Reversed(s: seq<bytes>): (r: seq<bytes>)
    ensures |r| == |s|
  {
    if s == [] then [] else [s[|s| - 1]] + Reversed(s[..|s| - 1])
  }

  function WithoutEmptyLast(s: seq<bytes>): seq<bytes> {
    if s != [] && s[|s| - 1] == [] then s[..|s| - 1] else s
  }

  function WithoutFirstEmpty(s: seq<bytes>): seq<bytes> {
    if s == [] then [] else if s[0] == [] then s[1..] else [s[0]] + WithoutFirstEmpty(s[1..])
  }

  /** The lines a reader returns before its first null. */
  function LinesBackwards(content: bytes): seq<bytes> {
    WithoutFirstEmpty(WithoutEmptyLast(Reversed(Split(content))))
  }

  // ------------------------------------------------------------------ what it comes to, told from the lines

  /** No byte of the line ends one. */
  predicate IsLine(line: bytes) {
    forall i :: 0 <= i < |line| ==> line[i] != 10 && line[i] != 13
  }

  predicate IsEnd(end: bytes) {
    end == [13, 10] || end == [10] || end == [13]
  }

  /** A text: lines, each but the last with its line end. */
  function Text(lines: seq<bytes>, ends: seq<bytes>): bytes
    requires |lines| == |ends| + 1
  {
    if ends == [] then lines[0] else lines[0] + (ends[0] + Text(lines[1..], ends[1..]))
  }

  /** No line end is split between two lines. */
  ghost predicate WellFormed(lines: seq<bytes>, ends: seq<bytes>)
    requires |lines| == |ends| + 1
  {
    && (forall i :: 0 <= i < |lines| ==> IsLine(lines[i]))
    && (forall i :: 0 <= i < |ends| ==> IsEnd(ends[i]))
    && (forall i :: 0 <= i < |ends| - 1 && ends[i] == [13] && lines[i + 1] == [] ==> ends[i + 1] != [10])
  }

  lemma {:induction false} SplitLine(line: bytes, rest: bytes)
    requires IsLine(line)
    ensures var r := Split(rest); Split(line + rest) == [line + r[0]] + r[1..]
  {
    var r := Split(rest);
    if line == [] {
      assert line + rest == rest && line + r[0] == r[0];
    } else {
      SplitLine(line[1..], rest);
      assert (line + rest)[0] == line[0] && (line + rest)[1..] == line[1..] + rest;
      assert [line[0]] + (line[1..] + r[0]) == line + r[0];
    }
  }

  lemma SplitEnd(end: bytes, rest: bytes)
    requires IsEnd(end) && (end == [13] && rest != [] ==> rest[0] != 10)
    ensures Split(end + rest) == [[]] + Split(rest)
  {
    var t := end + rest;
    assert t[|end|..] == rest && t[0] == end[0] && (|end| > 1 ==> t[1] == end[1]);
    assert |end| == 1 && rest != [] ==> t[1] == rest[0];
  }

  /** Splitting a text gives its lines. */
  lemma {:induction false} SplitOfText(lines: seq<bytes>, ends: seq<bytes>)
    requires |lines| == |ends| + 1 && WellFormed(lines, ends)
    ensures Split(Text(lines, ends)) == lines
    decreases |ends|
  {
    if ends == [] {
      SplitLine(lines[0], []);
      assert lines[0] + [] == lines[0] && Split([]) == [[]] && lines == [lines[0]];
    } else {
      var rest := Text(lines[1..], ends[1..]);
      SplitOfText(lines[1..], ends[1..]);
      FirstByte(lines[1..], ends[1..]);
      hide Split, Text;
      SplitEnd(ends[0], rest);
      SplitLine(lines[0], ends[0] + rest);
      var r := Split(ends[0] + rest);
      assert r[0] == [] && r[1..] == lines[1..] && lines[0] + r[0] == lines[0];
      assert Text(lines, ends) == lines[0] + (ends[0] + rest) by { TextStep(lines, ends); }
    }
  }

  lemma TextStep(lines: seq<bytes>, ends: seq<bytes>)
    requires |lines| == |ends| + 1 && ends != []
    ensures Text(lines, ends) == lines[0] + (ends[0] + Text(lines[1..], ends[1..]))
  {
  }

  lemma FirstByte(lines: seq<bytes>, ends: seq<bytes>)
    requires |lines| == |ends| + 1 && WellFormed(lines, ends)
    ensures var t := Text(lines, ends);
            t != [] ==> if lines[0] != [] then t[0] == lines[0][0] && t[0] != 10 else ends != [] && t[0] == ends[0][0] && IsEnd(ends[0])
  {
    assert IsLine(lines[0]);
  }

  /** A text without empty lines, but perhaps a last one for the line end the text ends with, is read line by line from its
      end. */
  lemma LinesFromTheEnd(lines: seq<bytes>, ends: seq<bytes>, i: nat)
    requires |lines| == |ends| + 1 && WellFormed(lines, ends) && forall j :: 0 <= j < |ends| ==> lines[j] != []
    ensures var n := if lines[|ends|] == [] then |ends| else |lines|;
            && |LinesBackwards(Text(lines, ends))| == n
            && (i < n ==> LinesBackwards(Text(lines, ends))[i] == lines[n - 1 - i])
  {
    var back, m := Reversed(lines), |ends|;
    SplitOfText(lines, ends);
    hide Split, Text, Reversed, IsLine, IsEnd;
    forall j | 0 <= j < |lines|
      ensures back[j] == lines[|lines| - 1 - j]
    {
      ReversedAt(lines, j);
    }
    if m == 0 {
      assert back == [lines[0]];
      AllNonEmpty([]);
      if lines[0] != [] {
        AllNonEmpty(back);
      }
    } else {
      assert back[m] == lines[0] != [] && WithoutEmptyLast(back) == back;
      if lines[m] == [] {
        assert WithoutFirstEmpty(back) == back[1..];
      } else {
        AllNonEmpty(back);
      }
    }
  }

  lemma {:induction false} ReversedAt(s: seq<bytes>, i: nat)
    requires i < |s|
    ensures Reversed(s)[i] == s[|s| - 1 - i]
  {
    if i > 0 {
      ReversedAt(s[..|s| - 1], i - 1);
    }
  }

  lemma {:induction false} AllNonEmpty(s: seq<bytes>)
    requires forall i :: 0 <= i < |s| ==> s[i] != []
    ensures WithoutFirstEmpty(s) == s
  {
    if s != [] {
      AllNonEmpty(s[1..]);
    }
  }

  // ------------------------------------------------------------------ the backward scan

  /** Length of the newline sequence of `s` that ends at index `i`, or 0. */
  function NewLineEndingAt(s: bytes, i: nat): (k: nat)
    requires i < |s|
    ensures k <= i + 1
  {
    if s[i] == LF then (if i > 0 && s[i - 1] == CR then 2 else 1)
    else if s[i] == CR then 1
    else 0
  }

  /** The last line of `s[..p]` when no line end lies in (i, p), and where its line end starts. */
  function ScanBack(s: bytes, i: int, p: nat): (r: (bytes, nat))
    requires -1 <= i < p <= |s| && 0 < p
    ensures r.1 <= i + 1 && r.1 < p
    decreases i + 1
  {
    if i == -1 then (s[..p], 0)
    else
      var k := NewLineEndingAt(s, i);
      if k > 0 then (s[i + 1..p], i + 1 - k) else ScanBack(s, i - 1, p)
  }

  function LastLine(s: bytes, p: nat): (r: (bytes, nat))
    requires 0 < p <= |s|
    ensures r.1 < p
  {
    ScanBack(s, p - 1, p)
  }

  /** All lines of `s[..p]`, the last first. */
  function BackLines(s: bytes, p: nat): seq<bytes>
    requires p <= |s|
  {
    if p == 0 then [] else [LastLine(s, p).0] + BackLines(s, LastLine(s, p).1)
  }

  // ------------------------------------------------------------------ backward scan = forward split, reversed

  predicate NoNewLine(s: bytes) {
    forall i :: 0 <= i < |s| ==> !IsNewLineByte(s[i])
  }

  lemma {:induction false} SplitPlain(s: bytes)
    requires NoNewLine(s)
    ensures Split(s) == [s]
  {
    if s == [] {
      assert [s] == [[]];
    } else {
      assert !IsNewLineByte(s[0]);
      SplitPlain(s[1..]);
      assert [s[0]] + s[1..] == s;
    }
  }

  lemma ReversedAppend(r: seq<bytes>, line: bytes)
    ensures Reversed(r + [line]) == [line] + Reversed(r)
    ensures Reversed([line]) == [line]
  {
    assert (r + [line])[..|r|] == r;
    assert [line][..0] == [];
  }

  lemma SplitLeading(nl: bytes, w: bytes)
    requires nl in NEW_LINE_SEQUENCES && NoNewLine(w)
    ensures Split(nl + w) == [[], w]
  {
    var t := nl + w;
    assert t[|nl|..] == w;
    assert w != [] ==> !IsNewLineByte(w[0]) && t[|nl|] == w[0];
    SplitPlain(w);
  }

  /** The length of the line end or the plain byte `s` starts with. */
  function HeadLength(s: bytes): (n: nat)
    requires s != []
    ensures 1 <= n <= |s|
  {
    if s[0] == CR && |s| > 1 && s[1] == LF then 2 else 1
  }

  /** A line end or plain byte that starts with `b` put before the segments `r`. */
  function Put(b: byte, r: seq<bytes>): seq<bytes>
    requires r != []
  {
    if IsNewLineByte(b) then [[]] + r else [[b] + r[0]] + r[1..]
  }

  lemma SplitHead(s: bytes)
    requires s != []
    ensures Split(s) == Put(s[0], Split(s[HeadLength(s)..]))
  {
  }

  lemma PutAppend(b: byte, r: seq<bytes>, x: seq<bytes>)
    requires r != []
    ensures Put(b, r + x) == Put(b, r) + x
  {
    assert (r + x)[1..] == r[1..] + x;
  }

  lemma SplitPrepend(u: bytes, v: bytes, x: seq<bytes>)
    requires u != [] && (u == [CR] ==> v == [] || v[0] != LF)
    requires Split(u[HeadLength(u)..] + v) == Split(u[HeadLength(u)..]) + x
    ensures Split(u + v) == Split(u) + x
  {
    hide Split, Put;
    var t := u + v;
    assert t[0] == u[0] && (|u| > 1 ==> t[1] == u[1]) && HeadLength(t) == HeadLength(u);
    assert t[HeadLength(u)..] == u[HeadLength(u)..] + v;
    SplitHead(t);
    SplitHead(u);
    PutAppend(u[0], Split(u[HeadLength(u)..]), x);
  }

  /** A line end followed by plain bytes splits off the last segment. */
  lemma {:induction false} SplitLast(u: bytes, nl: bytes, w: bytes)
    requires nl in NEW_LINE_SEQUENCES && NoNewLine(w)
    requires nl == [LF] && u != [] ==> u[|u| - 1] != CR
    ensures Split(u + nl + w) == Split(u) + [w]
    decreases |u|
  {
    hide NoNewLine;
    if u == [] {
      assert u + nl + w == nl + w;
      SplitLeading(nl, w);
    } else {
      hide Split;
      var n := HeadLength(u);
      SplitLast(u[n..], nl, w);
      assert u[n..] + nl + w == u[n..] + (nl + w) && u + nl + w == u + (nl + w);
      SplitPrepend(u, nl + w, [w]);
    }
  }

  lemma NewLineSlice(s: bytes, i: nat)
    requires i < |s| && NewLineEndingAt(s, i) > 0
    ensures var nl := s[i + 1 - NewLineEndingAt(s, i)..i + 1];
            nl in NEW_LINE_SEQUENCES && (nl == [LF] ==> i == 0 || s[i - 1] != CR)
  {
    var nl := s[i + 1 - NewLineEndingAt(s, i)..i + 1];
    if s[i] == CR {
      assert nl == NEW_LINE_SEQUENCES[2];
    } else if i > 0 && s[i - 1] == CR {
      assert nl == NEW_LINE_SEQUENCES[0];
    } else {
      assert nl == NEW_LINE_SEQUENCES[1];
    }
  }

  lemma SplitAtLineEnd(s: bytes, i: nat, p: nat)
    requires i < p <= |s| && NoNewLine(s[i + 1..p]) && NewLineEndingAt(s, i) > 0
    ensures Split(s[..p]) == Split(s[..i + 1 - NewLineEndingAt(s, i)]) + [s[i + 1..p]]
  {
    hide Split;
    var q := i + 1 - NewLineEndingAt(s, i);
    NewLineSlice(s, i);
    assert q > 0 ==> s[..q][q - 1] == s[q - 1];
    assert s[..p] == s[..q] + s[q..i + 1] + s[i + 1..p];
    SplitLast(s[..q], s[q..i + 1], s[i + 1..p]);
  }

  /** The scan finds the last segment, unless it is the only one or the first is empty. */
  ghost predicate ScanSplits(s: bytes, p: nat, line: bytes, q: nat)
    requires q < p <= |s|
  {
    if q == 0 then WithoutEmptyLast(Reversed(Split(s[..p]))) == [line]
    else Split(s[..p]) == Split(s[..q]) + [line]
  }

  lemma {:induction false} SplitAtScan(s: bytes, i: int, p: nat)
    requires -1 <= i < p <= |s| && 0 < p && NoNewLine(s[i + 1..p])
    ensures ScanSplits(s, p, ScanBack(s, i, p).0, ScanBack(s, i, p).1)
    decreases i + 1
  {
    hide Split, Reversed;
    if i == -1 {
      assert s[0..p] == s[..p];
      SplitPlain(s[..p]);
      ReversedAppend([], s[..p]);
    } else if NewLineEndingAt(s, i) > 0 {
      SplitAtLineEnd(s, i, p);
      if i + 1 - NewLineEndingAt(s, i) == 0 {
        var w := s[i + 1..p];
        SplitPlain([]);
        assert s[..0] == [];
        ReversedAppend([[]], w);
        ReversedAppend([], []);
      }
    } else {
      assert s[i..p] == [s[i]] + s[i + 1..p];
      SplitAtScan(s, i - 1, p);
    }
  }

  lemma {:induction false} BackLinesAreReversedSplit(s: bytes, p: nat)
    requires p <= |s|
    ensures BackLines(s, p) == WithoutEmptyLast(Reversed(Split(s[..p])))
    decreases p
  {
    hide Split, Reversed, ScanBack;
    if p == 0 {
      assert s[..p] == [];
      SplitPlain([]);
      ReversedAppend([], []);
    } else {
      var (line, q) := LastLine(s, p);
      SplitAtScan(s, p - 1, p);
      if q > 0 {
        BackLinesAreReversedSplit(s, q);
        ReversedAppend(Split(s[..q]), line);
      }
    }
  }

  lemma WholeFileBackwards(content: bytes)
    ensures WithoutFirstEmpty(BackLines(content, |content|)) == LinesBackwards(content)
  {
    BackLinesAreReversedSplit(content, |content|);
    assert content[..|content|] == content;
  }

  // ------------------------------------------------------------------ the reader

  method GetNewLineMatchByteCount(data: bytes, i: nat) returns (count: nat)
    requires i < |data|
    ensures count == NewLineEndingAt(data, i)
  {
    var n := 0;
    while n < |NEW_LINE_SEQUENCES|
      invariant 0 <= n <= |NEW_LINE_SEQUENCES|
      invariant forall m :: 0 <= m < n ==> !EndsWith(data, i, NEW_LINE_SEQUENCES[m])
    {
      var newLine := NEW_LINE_SEQUENCES[n];
      var isMatch := true;
      var j := |newLine| - 1;
      while j >= 0
        invariant -1 <= j < |newLine|
        invariant isMatch <==> forall l :: j < l < |newLine| ==> Matches(data, i, newLine, l)
      {
        assert Matches(data, i, newLine, j) <==> i + j - (|newLine| - 1) >= 0 && data[i + j - (|newLine| - 1)] == newLine[j];
        var k := i + j - (|newLine| - 1);
        isMatch := isMatch && k >= 0 && data[k] == newLine[j];
        j := j - 1;
      }
      if isMatch {
        assert EndsWith(data, i, newLine);
        assert Matches(data, i, newLine, 0) && Matches(data, i, newLine, |newLine| - 1);
        assert n > 0 ==> !EndsWith(data, i, NEW_LINE_SEQUENCES[0]);
        NotCrLf(data, i);
        return |newLine|;
      }
      n := n + 1;
    }
    assert !EndsWith(data, i, NEW_LINE_SEQUENCES[1]) && !EndsWith(data, i, NEW_LINE_SEQUENCES[2]);
    SingleByte(data, i);
    count := 0;
  }

  predicate Matches(data: bytes, i: nat, newLine: bytes, l: nat)
    requires i < |data| && l < |newLine|
  {
    var k := i + l - (|newLine| - 1);
    k >= 0 && data[k] == newLine[l]
  }

  ghost predicate EndsWith(data: bytes, i: nat, newLine: bytes)
    requires i < |data|
  {
    forall l :: 0 <= l < |newLine| ==> Matches(data, i, newLine, l)
  }

  lemma NotCrLf(data: bytes, i: nat)
    requires i < |data|
    ensures EndsWith(data, i, NEW_LINE_SEQUENCES[0]) <==> (i > 0 && data[i - 1] == CR && data[i] == LF)
  {
    var nl := NEW_LINE_SEQUENCES[0];
    assert Matches(data, i, nl, 0) <==> i > 0 && data[i - 1] == CR;
    assert Matches(data, i, nl, 1) <==> data[i] == LF;
  }

  lemma SingleByte(data: bytes, i: nat)
    requires i < |data|
    ensures EndsWith(data, i, NEW_LINE_SEQUENCES[1]) <==> data[i] == LF
    ensures EndsWith(data, i, NEW_LINE_SEQUENCES[2]) <==> data[i] == CR
  {
    assert Matches(data, i, NEW_LINE_SEQUENCES[1], 0) <==> data[i] == LF;
    assert Matches(data, i, NEW_LINE_SEQUENCES[2], 0) <==> data[i] == CR;
  }

  /** Offset of block `no`, counting from 1; 0 for the empty file's only part, number 0. */
  function BlockStart(no: nat, blockSize: nat): nat {
    if no <= 1 then 0 else BlockStart(no - 1, blockSize) + blockSize
  }

  lemma {:induction false} BlockStartIsProduct(no: nat, blockSize: nat)
    ensures BlockStart(no, blockSize) == if no == 0 then 0 else (no - 1) * blockSize
  {
    if no > 1 {
      BlockStartIsProduct(no - 1, blockSize);
      assert (no - 1) * blockSize == (no - 2) * blockSize + blockSize;
    }
  }

  /** The constructor's block count and last block length place the end of the last block at the end of the file. */
  lemma LastBlockEndsFile(size: nat, blockSize: nat, count: nat, length: nat)
    requires blockSize > 0
    requires if size % blockSize > 0 then count == size / blockSize + 1 && length == size % blockSize
             else count == size / blockSize && length == if size > 0 then blockSize else 0
    ensures BlockStart(count, blockSize) + length == size && (count == 0 ==> length == 0)
  {
    BlockStartIsProduct(count, blockSize);
    var q := size / blockSize;
    assert size == q * blockSize + size % blockSize;
    assert (q - 1) * blockSize == q * blockSize - blockSize;
  }

  /** The bytes between offsets `off` and `p` of `file` are the first bytes of `data`. */
  ghost predicate Mirrors(data: bytes, file: bytes, off: nat, p: nat) {
    off <= p <= |file| && p - off <= |data| && forall j :: 0 <= j < p - off ==> data[j] == file[off + j]
  }

  lemma MirrorsNewLine(data: bytes, file: bytes, off: nat, p: nat, i: nat)
    requires Mirrors(data, file, off, p) && i < p - off && (i > 0 || off == 0)
    ensures NewLineEndingAt(data, i) == NewLineEndingAt(file, off + i)
  {
  }

  lemma MirrorsSlices(data: bytes, file: bytes, off: nat, p: nat, a: nat, b: nat)
    requires Mirrors(data, file, off, p) && a <= p - off && b <= p - off
    ensures off <= p <= |file| && p - off <= |data|
    ensures data[a..p - off] == file[off + a..p] && Mirrors(data, file, off, off + b)
  {
  }

  lemma ScanBackStep(s: bytes, i: nat, p: nat)
    requires i < p <= |s|
    ensures ScanBack(s, i, p) ==
            if NewLineEndingAt(s, i) > 0 then (s[i + 1..p], i + 1 - NewLineEndingAt(s, i))
            else if i == 0 then (s[..p], 0)
            else ScanBack(s, i - 1, p)
  {
  }

  lemma LastLineStart(s: bytes, p: nat)
    requires 0 < p <= |s|
    ensures LastLine(s, p) == ScanBack(s, p - 1, p)
  {
  }

  lemma CrLfIsLongest()
    ensures |NEW_LINE_SEQUENCES| == 3 && |NEW_LINE_SEQUENCES[0]| == 2
  {
  }

  lemma NewLineFits(s: bytes, i: nat)
    requires i < |s|
    ensures NewLineEndingAt(s, i) <= i + 1
  {
  }

  /** One block of the file, followed by the bytes the block after it left over. */
  class FilePart {
    const file: bytes
    const blockSize: nat
    const no: nat
    const data: bytes
    var leftOver: Option<bytes>
    var currentLastBytePos: int

    ghost function Offset(): nat {
      BlockStart(no, blockSize)
    }

    /** End of the part of the file that has not been returned yet. */
    ghost function Unread(): int
      reads this
    {
      Offset() + if leftOver.Some? then |leftOver.value| else currentLastBytePos + 1
    }

    ghost predicate Valid()
      reads this
    {
      && -1 <= currentLastBytePos < |data|
      && Offset() <= Unread() <= |file|
      && (leftOver.Some? ==> currentLastBytePos == -1)
      && Mirrors(if leftOver.Some? then leftOver.value else data, file, Offset(), Unread())
      && (no == 0 ==> data == [])
    }

    constructor (file: bytes, blockSize: nat, no: nat, length: nat, leftOverOfLastFilePart: Option<bytes>)
      requires var off := BlockStart(no, blockSize);
               var rest := if leftOverOfLastFilePart.Some? then leftOverOfLastFilePart.value else [];
               && off + length + |rest| <= |file| && Mirrors(rest, file, off + length, off + length + |rest|)
               && (no == 0 ==> length == 0 && rest == [])
      ensures Valid() && leftOver.None?
      ensures this.file == file && this.blockSize == blockSize && this.no == no
      ensures Unread() == Offset() + length +
                          if leftOverOfLastFilePart.Some? then |leftOverOfLastFilePart.value| else 0
    {
      BlockStartIsProduct(no, blockSize);
      var off := if no == 0 then 0 else (no - 1) * blockSize;
      var rest := if leftOverOfLastFilePart.Some? then leftOverOfLastFilePart.value else [];
      this.file, this.blockSize, this.no := file, blockSize, no;
      data := file[off..off + length] + rest;
      currentLastBytePos := length + |rest| - 1;
      leftOver := None;
    }

    method CreateLeftOver()
      requires Valid() && leftOver.None?
      modifies this
      ensures Valid() && currentLastBytePos == -1 && Unread() == old(Unread())
      ensures leftOver.Some? <==> old(currentLastBytePos) >= 0
    {
      var lineLengthBytes := currentLastBytePos + 1;
      if lineLengthBytes > 0 {
        leftOver := Some(data[..lineLengthBytes]);
      } else {
        leftOver := None;
      }
      currentLastBytePos := -1;
    }

    /** The line after the newline sequence of `count` bytes that ends at index `i`. */
    method TakeLine(i: nat, count: nat) returns (line: bytes)
      requires Valid() && leftOver.None? && i <= currentLastBytePos && count <= i + 1
      modifies this
      ensures Valid() && leftOver.None? && Unread() == Offset() + i + 1 - count
      ensures line == file[Offset() + i + 1..old(Unread())]
    {
      hide BlockStart, Mirrors;
      MirrorsSlices(data, file, Offset(), Unread(), i + 1, i + 1 - count);
      var lineStart := i + 1;
      var lineLengthBytes := currentLastBytePos - lineStart + 1;
      if lineLengthBytes < 0 {
        assert false; // "Unexpected negative line length"
      }
      line := data[lineStart..lineStart + lineLengthBytes];
      currentLastBytePos := i - count;
    }

    /** What Valid() says while nothing was left over. */
    lemma Reading()
      requires Valid() && leftOver.None?
      ensures -1 <= currentLastBytePos < |data| && Unread() == Offset() + currentLastBytePos + 1 <= |file|
      ensures Mirrors(data, file, Offset(), Unread()) && (no <= 1 ==> Offset() == 0) && (no == 0 ==> currentLastBytePos == -1)
    {
      hide Mirrors;
    }

    /** The scan from the last unread byte to the front: it stops at a line end, or leaves the rest over. */
    method ScanBlock() returns (line: Option<bytes>)
      requires Valid() && leftOver.None?
      modifies this
      ensures Valid()
      ensures line.Some? ==>
                old(Unread()) > 0 && leftOver.None? && (line.value, Unread()) == LastLine(file, old(Unread()))
      ensures line.None? ==> Unread() == old(Unread()) && currentLastBytePos == -1
      ensures line.None? && no == 1 && leftOver.Some? ==> Unread() > 0 && LastLine(file, Unread()) == (file[..Unread()], 0)
      ensures line.None? && no == 0 ==> leftOver.None?
    {
      hide *;
      CrLfIsLongest();
      Reading();
      ghost var p, off := Unread(), Offset();
      if p > 0 {
        LastLineStart(file, p);
      }
      line := None;
      var i := currentLastBytePos;
      while i > -1
        invariant 0 <= i <= currentLastBytePos || i == currentLastBytePos == -1
        invariant currentLastBytePos == p - off - 1 && Valid() && leftOver.None? && Unread() == p
        invariant i >= 0 ==> LastLine(file, p) == ScanBack(file, off + i, p)
        decreases i
      {
        if no != 1 && i < |NEW_LINE_SEQUENCES[0]| {
          CreateLeftOver();
          break;
        }
        var newLineMatchByteCount := GetNewLineMatchByteCount(data, i);
        MirrorsNewLine(data, file, off, p, i);
        ScanBackStep(file, off + i, p);
        if newLineMatchByteCount > 0 {
          NewLineFits(data, i);
          var found := TakeLine(i, newLineMatchByteCount);
          line := Some(found);
          break;
        }
        i := i - 1;
        if i < 0 {
          CreateLeftOver();
          break;
        }
      }
    }

    /** Returns the last unread line, or hands what is left of this block to the block before it. */
    method ReadLine() returns (line: Option<bytes>)
      requires Valid() && leftOver.None?
      modifies this
      ensures Valid()
      ensures line.Some? ==>
                old(Unread()) > 0 && leftOver.None? && (line.value, Unread()) == LastLine(file, old(Unread()))
      ensures line.None? ==> Unread() == old(Unread()) && currentLastBytePos == -1
      ensures line.None? && no <= 1 ==> leftOver.None?
    {
      hide LastLine;
      line := ScanBlock();
      if no == 1 && leftOver.Some? {
        assert leftOver.value == file[..Unread()];
        line := leftOver;
        leftOver := None;
      }
    }
  }

  class ReversedLinesFileReader {
    const file: bytes
    const blockSize: nat
    var currentFilePart: FilePart?
    var trailingNewlineOfFileSkipped: bool

    ghost predicate Valid()
      reads this, currentFilePart
    {
      currentFilePart != null ==>
        && currentFilePart.Valid() && currentFilePart.leftOver.None?
        && currentFilePart.file == file && currentFilePart.blockSize == blockSize
    }

    /** How much of the file is still to be returned. */
    ghost function Unread(): nat
      requires Valid()
      reads this, currentFilePart
    {
      if currentFilePart == null then 0 else currentFilePart.Unread()
    }

    constructor (file: bytes, blockSize: nat)
      requires blockSize > 0
      ensures Valid() && fresh(currentFilePart) && currentFilePart != null
      ensures this.file == file && Rest() == LinesBackwards(file)
    {
      hide BackLines, WithoutFirstEmpty, LinesBackwards, BlockStart;
      var lastBlockLength := |file| % blockSize;
      var totalBlockCount;
      if lastBlockLength > 0 {
        totalBlockCount := |file| / blockSize + 1;
      } else {
        totalBlockCount := |file| / blockSize;
        if |file| > 0 {
          lastBlockLength := blockSize;
        }
      }
      LastBlockEndsFile(|file|, blockSize, totalBlockCount, lastBlockLength);
      this.file, this.blockSize := file, blockSize;
      WholeFileBackwards(file);
      currentFilePart := new FilePart(file, blockSize, totalBlockCount, lastBlockLength, None);
      trailingNewlineOfFileSkipped := false;
    }

    /** The part before the current one; null after the first block. Neither exception of rollOver is reachable. */
    method RollOver(part: FilePart) returns (next: FilePart?)
      requires part.Valid() && part.currentLastBytePos == -1 && part.file == file && part.blockSize == blockSize
      requires part.no <= 1 ==> part.leftOver.None?
      ensures next == null <==> part.no <= 1
      ensures next == null ==> part.Unread() == 0
      ensures next != null ==>
                && fresh(next) && next.Valid() && next.leftOver.None? && next.no == part.no - 1
                && next.file == file && next.blockSize == blockSize && next.Unread() == part.Unread()
    {
      if part.currentLastBytePos > -1 {
        assert false; // "last readLine() should have returned something"
      }
      if part.no > 1 {
        next := new FilePart(file, blockSize, part.no - 1, blockSize, part.leftOver);
      } else {
        if part.leftOver.Some? {
          assert false; // "Unexpected leftover of the last block"
        }
        next := null;
      }
    }

    /** The last line of what is unread, from whichever block completes it; null at the start of the file. */
    method LineFromParts() returns (line: Option<bytes>)
      requires Valid() && currentFilePart != null
      modifies this`currentFilePart, currentFilePart
      ensures Valid()
      ensures currentFilePart != null ==> currentFilePart == old(currentFilePart) || fresh(currentFilePart)
      ensures line.None? <==> currentFilePart == null
      ensures line.None? ==> old(Unread()) == 0
      ensures line.Some? ==> old(Unread()) > 0 && (line.value, Unread()) == LastLine(file, old(Unread()))
    {
      ghost var p := Unread();
      line := currentFilePart.ReadLine();
      while line.None?
        invariant currentFilePart != null
        invariant currentFilePart == old(currentFilePart) || fresh(currentFilePart)
        invariant currentFilePart.Valid() && currentFilePart.file == file && currentFilePart.blockSize == blockSize
        invariant line.Some? ==> p > 0 && currentFilePart.leftOver.None?
                                 && (line.value, currentFilePart.Unread()) == LastLine(file, p)
        invariant line.None? ==> currentFilePart.Unread() == p && currentFilePart.currentLastBytePos == -1
                                 && (currentFilePart.no <= 1 ==> currentFilePart.leftOver.None?)
        decreases line.None?, currentFilePart.no
      {
        currentFilePart := RollOver(currentFilePart);
        if currentFilePart != null {
          line := currentFilePart.ReadLine();
        } else {
          break;
        }
      }
    }

    /** The lines still to be returned. */
    ghost function Rest(): seq<bytes>
      requires Valid()
      reads this, currentFilePart
    {
      if trailingNewlineOfFileSkipped then BackLines(file, Unread()) else WithoutFirstEmpty(BackLines(file, Unread()))
    }

    /** The next line from the end, or null; the first empty line met is skipped. */
    method ReadLine() returns (line: Option<bytes>)
      requires Valid() && currentFilePart != null
      modifies this, currentFilePart
      ensures Valid()
      ensures currentFilePart != null ==> currentFilePart == old(currentFilePart) || fresh(currentFilePart)
      ensures line.None? <==> currentFilePart == null
      ensures old(Rest()) == if line.None? then [] else [line.value] + Rest()
      ensures line.Some? ==> Unread() < old(Unread())
      decreases !trailingNewlineOfFileSkipped
    {
      hide ScanBack;
      line := LineFromParts();
      if line == Some([]) && !trailingNewlineOfFileSkipped {
        trailingNewlineOfFileSkipped := true;
        line := ReadLine();
      }
    }
  }

  /** Reads every line up to the first null: for every content and every block size the same lines. */
  method ReadAllLines(content: bytes, blockSize: nat) returns (lines: seq<bytes>)
    requires blockSize > 0
    ensures lines == LinesBackwards(content)
  {
    hide *;
    var reader := new ReversedLinesFileReader(content, blockSize);
    ghost var all := LinesBackwards(content);
    lines := [];
    var line := reader.ReadLine();
    while line.Some?
      invariant reader.Valid() && reader.file == content && fresh(reader)
      invariant reader.currentFilePart != null ==> fresh(reader.currentFilePart)
      invariant line.None? <==> reader.currentFilePart == null
      invariant line.None? ==> lines == all
      invariant line.Some? ==> lines + [line.value] + reader.Rest() == all
      decreases line.Some?, reader.Unread()
    {
      lines := lines + [line.value];
      line := reader.ReadLine();
    }
  }
}
