/** Machine words and byte strings shared by every component. */
module Words {
  type byte = x: int | 0 <= x < 0x100
  type bytes = seq<byte>
  type u16 = x: int | 0 <= x < 0x1_0000
  type u32 = x: int | 0 <= x < 0x1_0000_0000

  datatype Option<+T> = None | Some(value: T)

  /** The value an unsigned 32-bit register holds for the integer `x`. */
  function Wrap32(x: int): u32 {
    x % 0x1_0000_0000
  }

  lemma WrapShift(x: int, k: int)
    ensures Wrap32(x + 0x1_0000_0000 * k) == Wrap32(x)
  {
  }

  /** Sums and differences may be wrapped before or after. */
  lemma WrapAdds(a: int, b: int)
    ensures Wrap32(Wrap32(a) + b) == Wrap32(a + b)
    ensures Wrap32(Wrap32(a) - b) == Wrap32(a - b)
    ensures Wrap32(b - Wrap32(a)) == Wrap32(b - a)
  {
    var q := a / 0x1_0000_0000;
    assert Wrap32(a) == a - 0x1_0000_0000 * q;
    WrapShift(Wrap32(a) + b, q);
    WrapShift(Wrap32(a) - b, q);
    WrapShift(b - a, q);
  }

  function Min(a: int, b: int): int {
    if a < b then a else b
  }

  function Max(a: int, b: int): int {
    if a > b then a else b
  }

  lemma ConcatAssoc<T>(a: seq<T>, b: seq<T>, c: seq<T>)
    ensures (a + b) + c == a + (b + c)
  {
  }

  /** Concatenation of a list of sequences. */
  function Flat<T>(s: seq<seq<T>>): seq<T> {
    if s == [] then [] else Flat(s[..|s| - 1]) + s[|s| - 1]
  }

  lemma FlatAppend<T>(s: seq<seq<T>>, x: seq<T>)
    ensures Flat(s + [x]) == Flat(s) + x
  {
    assert (s + [x])[..|s|] == s;
  }

  lemma {:induction false} FlatConcat<T>(s: seq<seq<T>>, t: seq<seq<T>>)
    ensures Flat(s + t) == Flat(s) + Flat(t)
  {
    if t == [] {
      assert s + t == s;
    } else {
      assert (s + t)[..|s + t| - 1] == s + t[..|t| - 1];
      FlatConcat(s, t[..|t| - 1]);
    }
  }

  lemma FlatNext<T>(s: seq<seq<T>>, j: nat)
    requires j < |s|
    ensures Flat(s[..j + 1]) == Flat(s[..j]) + s[j]
  {
    hide Flat;
    assert s[..j + 1] == s[..j] + [s[j]];
    FlatAppend(s[..j], s[j]);
  }

  lemma FlatSplit<T>(s: seq<seq<T>>, j: nat)
    requires j <= |s|
    ensures Flat(s) == Flat(s[..j]) + Flat(s[j..])
  {
    hide Flat;
    FlatConcat(s[..j], s[j..]);
    assert s == s[..j] + s[j..];
  }

  function Pow2(n: nat): nat {
    if n == 0 then 1 else 2 * Pow2(n - 1)
  }

  lemma {:induction false} ScaleBounds(scale: nat)
    ensures Pow2(scale) > 0
    ensures scale <= 16 ==> Pow2(scale) <= 0x1_0000
    ensures scale >= 16 ==> Pow2(scale) >= 0x1_0000
    decreases if scale > 16 then scale else 16 - scale
  {
    if scale == 16 {
      assert Pow2(14) == 0x4000;
      assert Pow2(16) == 2 * Pow2(15) == 4 * Pow2(14);
    } else if scale > 16 {
      ScaleBounds(scale - 1);
    } else {
      ScaleBounds(scale + 1);
    }
  }
}
