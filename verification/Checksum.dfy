/** The Internet checksum (RFC 1071) as `calc_checksum` in utils.c computes it on a little-endian host. */
module Checksum {
  import opened Words

  /** Sum of the 16-bit words of `b`, low byte first; an odd last byte is padded with zero. */
  function WordSum(b: bytes): nat {
    if b == [] then 0
    else if |b| == 1 then b[0]
    else b[0] + 256 * b[1] + WordSum(b[2..])
  }

  /** The same sum with the high byte first: network order, as RFC 1071 writes it. */
  function NetworkSum(b: bytes): nat {
    if b == [] then 0
    else if |b| == 1 then 256 * b[0]
    else 256 * b[0] + b[1] + NetworkSum(b[2..])
  }

  /** The canonical residue of `n` modulo 65535: 0 only for 0, otherwise in 1..65535. */
  function Canon(n: nat): u16 {
    if n == 0 then 0 else (n - 1) % 65535 + 1
  }

  function Complement(x: u16): u16 {
    65535 - x
  }

  /** The two bytes of a word exchanged. */
  function Swap(x: u16): u16 {
    x % 256 * 256 + x / 256
  }

  /** Writes word `w` at byte offset `off`, low byte first, as a C store to a uint16_t does. */
  function StoreWord(b: bytes, off: nat, w: u16): bytes
    requires off + 1 < |b|
  {
    b[off := w % 256][off + 1 := w / 256]
  }

  // ------------------------------------------------------------------ the loop of utils.c

  lemma FoldKeepsCanon(sum: nat)
    ensures Canon(sum % 0x1_0000 + sum / 0x1_0000) == Canon(sum)
  {
    var q, r := sum / 0x1_0000, sum % 0x1_0000;
    assert sum == 65535 * q + (q + r);
  }

  method CalcChecksum(start: u16, buffer: bytes) returns (r: u16)
    requires |buffer| <= 65535
    ensures r == Canon(start + WordSum(buffer))
  {
    var sum: u32 := start;
    var i := 0;
    while |buffer| - i > 1
      invariant 0 <= i <= |buffer|
      invariant sum + WordSum(buffer[i..]) == start + WordSum(buffer)
      invariant 2 * sum <= 65535 * (i + 2)
    {
      assert buffer[i..][2..] == buffer[i + 2..];
      var hi: int := buffer[i + 1];
      sum := sum + buffer[i] + 256 * hi;
      i := i + 2;
    }
    if |buffer| - i > 0 {
      sum := sum + buffer[i];
    }
    assert sum == start + WordSum(buffer);
    while sum / 0x1_0000 != 0
      invariant Canon(sum) == Canon(start + WordSum(buffer))
      decreases sum
    {
      FoldKeepsCanon(sum);
      sum := sum % 0x1_0000 + sum / 0x1_0000;
    }
    r := sum;
  }

  // ------------------------------------------------------------------ what the sum means

  lemma CanonAbsorbs(x: nat, y: nat)
    ensures Canon(Canon(x) + y) == Canon(x + y)
  {
    if x > 0 {
      var q := (x - 1) / 65535;
      assert x + y == 65535 * q + (Canon(x) + y);
    }
  }

  lemma {:induction false} WordSumConcat(a: bytes, b: bytes)
    requires |a| % 2 == 0
    ensures WordSum(a + b) == WordSum(a) + WordSum(b)
    decreases |a|
  {
    if a == [] {
      assert a + b == b;
    } else {
      assert (a + b)[2..] == a[2..] + b;
      WordSumConcat(a[2..], b);
    }
  }

  /** Summing a segment of any length and then the pseudo-header, as zdtun_l3_checksum does, is the
      checksum of the pseudo-header followed by the segment. */
  lemma SegmentThenPseudo(segment: bytes, pseudo: bytes)
    requires |pseudo| % 2 == 0
    ensures Canon(Canon(WordSum(segment)) + WordSum(pseudo)) == Canon(WordSum(pseudo + segment))
  {
    CanonAbsorbs(WordSum(segment), WordSum(pseudo));
    WordSumConcat(pseudo, segment);
  }

  lemma {:induction false} WordSumStore(b: bytes, off: nat, w: u16)
    requires off % 2 == 0 && off + 1 < |b| && b[off] == 0 && b[off + 1] == 0
    ensures WordSum(StoreWord(b, off, w)) == WordSum(b) + w
    decreases off
  {
    if off == 0 {
      assert StoreWord(b, 0, w)[2..] == b[2..];
    } else {
      assert StoreWord(b, off, w)[2..] == StoreWord(b[2..], off - 2, w);
      WordSumStore(b[2..], off - 2, w);
    }
  }

  lemma ComplementFills(s: nat)
    ensures Canon(s + Complement(Canon(s))) == 0xFFFF
  {
    CanonAbsorbs(s, Complement(Canon(s)));
    assert Canon(65535) == 65535;
  }

  /** Storing the complement of the sum in a zeroed, word-aligned field makes the whole sum 0xFFFF. */
  lemma StoredComplementVerifies(pseudo: bytes, b: bytes, off: nat)
    requires |pseudo| % 2 == 0
    requires off % 2 == 0 && off + 1 < |b| && b[off] == 0 && b[off + 1] == 0
    ensures Canon(WordSum(pseudo + StoreWord(b, off, Complement(Canon(WordSum(pseudo + b)))))) == 0xFFFF
  {
    var s := WordSum(pseudo + b);
    var w := Complement(Canon(s));
    WordSumConcat(pseudo, b);
    WordSumConcat(pseudo, StoreWord(b, off, w));
    WordSumStore(b, off, w);
    ComplementFills(s);
  }

  // ------------------------------------------------------------------ byte order independence

  /** The high bytes of the little-endian words. */
  function OddBytes(b: bytes): nat {
    if |b| < 2 then 0 else b[1] + OddBytes(b[2..])
  }

  lemma {:induction false} NetworkSumShift(b: bytes)
    ensures 256 * WordSum(b) == NetworkSum(b) + 65535 * OddBytes(b)
    ensures WordSum(b) == 0 <==> NetworkSum(b) == 0
    decreases |b|
  {
    if |b| >= 2 {
      NetworkSumShift(b[2..]);
    }
  }

  lemma CanonUnique(n: nat, s: u16, k: int)
    requires n > 0 && s > 0 && s == n + 65535 * k
    ensures Canon(n) == s
  {
    assert n - 1 == 65535 * -k + (s - 1);
  }

  lemma SwapIsShift(x: u16)
    ensures Swap(x) == 256 * (x as int) - 65535 * (x / 256)
    ensures Swap(x) == 0 <==> x == 0
  {
  }

  /** Computing the checksum on a little-endian host gives the byte swap of the network-order one
      (section 2(B) of RFC 1071), so the bytes stored in the packet are the same. */
  lemma ByteOrderIndependence(b: bytes)
    ensures Canon(NetworkSum(b)) == Swap(Canon(WordSum(b)))
  {
    var n, l := NetworkSum(b), WordSum(b);
    NetworkSumShift(b);
    if l > 0 {
      var q := (l - 1) / 65535;
      var c := Canon(l);
      assert l == 65535 * q + c;
      SwapIsShift(c);
      CanonUnique(n, Swap(c), OddBytes(b) - 256 * q - c / 256);
    }
  }
}
