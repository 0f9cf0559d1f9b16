/** TCP options: the scanner run on a client's SYN and the options sent in the SYN+ACK. */
module TcpOptions {
  import opened Words

  const OPT_END := 0
  const OPT_NOP := 1
  const OPT_MSS := 2
  const OPT_SCALE := 3

  datatype Parsed = Parsed(mss: nat, scale: nat)

  /** What the options in `o` say, starting from the values `p`: later options win, a malformed one ends the scan. */
  function Parse(o: bytes, p: Parsed): Parsed {
    if |o| <= 1 then p
    else if o[0] == OPT_NOP then Parse(o[1..], p)
    else if o[0] == OPT_END || o[1] < 2 || |o| < o[1] then p
    else
      Parse(o[o[1]..],
            if o[0] == OPT_MSS && o[1] == 4 then p.(mss := o[2] as int * 256 + o[3])
            else if o[0] == OPT_SCALE && o[1] == 3 then p.(scale := o[2])
            else p)
  }

  /** A well-formed option other than NOP. */
  datatype TcpOption = TcpOption(kind: byte, data: bytes) {
    predicate Valid() {
      kind > OPT_NOP && |data| <= 253
    }

    function Wire(): bytes
      requires Valid()
    {
      [kind, |data| + 2] + data
    }
  }

  /** Each option is read back as itself whatever follows it, and padding before it is skipped. */
  lemma ParseOption(opt: TcpOption, rest: bytes, p: Parsed)
    requires opt.Valid()
    ensures Parse([1] + (opt.Wire() + rest), p) == Parse(opt.Wire() + rest, p)
    ensures Parse(opt.Wire() + rest, p) ==
            Parse(rest, if opt.kind == 2 && |opt.data| == 2 then p.(mss := opt.data[0] as int * 256 + opt.data[1])
                        else if opt.kind == 3 && |opt.data| == 1 then p.(scale := opt.data[0])
                        else p)
  {
    var o := opt.Wire() + rest;
    assert ([1] + o)[1..] == o;
    assert o[|opt.data| + 2..] == rest;
    assert o[0] == opt.kind && o[1] == |opt.data| + 2;
    assert forall i :: 0 <= i < |opt.data| ==> o[i + 2] == opt.data[i];
  }

  /** The end-of-list option ends the scan, as does one whose length is below 2 or goes past the option area. */
  lemma ScanEnds(o: bytes, p: Parsed)
    requires |o| <= 1 || o[0] == 0 || (o[0] != 1 && (o[1] < 2 || |o| < o[1]))
    ensures Parse(o, p) == p
  {
  }

  /** The scan of handle_tcp_fwd: two cursors, and every read inside the option area. */
  method ParseOptions(options: bytes, defaultMss: nat) returns (mss: nat, scale: nat)
    ensures Parsed(mss, scale) == Parse(options, Parsed(defaultMss, 0))
  {
    mss, scale := defaultMss, 0;
    var opts, optslen := 0, |options|;
    assert options[opts..] == options;
    while optslen > 1
      invariant opts + optslen == |options| && 0 <= opts && 0 <= optslen
      invariant Parse(options[opts..], Parsed(mss, scale)) == Parse(options, Parsed(defaultMss, 0))
      decreases optslen
    {
      ghost var o := options[opts..];
      var kind := options[opts];
      opts := opts + 1;
      if kind == OPT_NOP {
        assert o[1..] == options[opts..];
        optslen := optslen - 1;
        continue;
      }
      var len := options[opts];
      opts := opts + 1;
      if kind == OPT_END || len < 2 || optslen < len {
        break;
      }
      if kind == OPT_MSS && len == 4 {
        var high: int := options[opts];
        mss := high * 256 + options[opts + 1];
      }
      if kind == OPT_SCALE && len == 3 {
        scale := options[opts];
      }
      assert o[len..] == options[opts + (len - 2)..];
      opts := opts + (len - 2);
      optslen := optslen - len;
    }
  }

  /** The option area of a SYN+ACK: MSS, window scale, end; two 32-bit words. */
  function SynAckOptions(mss: u16, scale: byte): (o: bytes)
    ensures |o| == 8
  {
    [OPT_MSS, 4, mss / 256, mss % 256, OPT_SCALE, 3, scale, OPT_END]
  }

  lemma SynAckOptionsReparse(mss: u16, scale: byte, p: Parsed)
    ensures Parse(SynAckOptions(mss, scale), p) == Parsed(mss, scale)
    ensures SynAckOptions(mss, scale) == [2, 4, mss / 256, mss % 256, 3, 3, scale, 0]
  {
    var a, b := TcpOption(OPT_MSS, [mss / 256, mss % 256]), TcpOption(OPT_SCALE, [scale]);
    var end: bytes := [OPT_END];
    assert SynAckOptions(mss, scale) == a.Wire() + (b.Wire() + end);
    ParseOption(a, b.Wire() + end, p);
    ParseOption(b, end, p.(mss := mss));
  }
}
