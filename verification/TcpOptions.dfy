/** TCP options: the SYN option parser of layer_tcp.cpp and the option block tcp_build_hdr writes. */
module TcpOptions {
  import opened Bytes

  const OUR_MSS: u16 := 460

  /** What a SYN tells about the peer. */
  datatype Peer = Peer(mss: u16, wscale: byte)

  const DEFAULTS: Peer := Peer(OUR_MSS, 0)

  function Clamp(ws: byte): byte { if ws <= 7 then ws else 0 }

  /** The option loop from offset o on, over header bytes m of which the options fill the first `end`. */
  function Parse(m: seq<byte>, o: nat, end: nat, p: Peer): Peer
    requires end + 2 <= |m|
    decreases end - o
  {
    if o + 1 >= end then p
    else if m[o] == 0 then p
    else if m[o] == 1 then Parse(m, o + 1, end, p)
    else if m[o + 1] < 2 then p
    else Parse(m, o + m[o + 1], end, Absorb(m, o, p))
  }

  /** One option of kind m[o] and length m[o + 1]. */
  function Absorb(m: seq<byte>, o: nat, p: Peer): Peer
    requires o + 3 < |m|
  {
    if m[o] == 2 && m[o + 1] >= 4 then p.(mss := U16Of(m[o + 2], m[o + 3]))
    else if m[o] == 3 && m[o + 1] >= 3 then p.(wscale := Clamp(m[o + 2]))
    else p
  }

  /** A byte of the staged frame. */
  method FrameByte(frame: array<word>, i: nat) returns (b: byte)
    requires i < 4 * frame.Length
    ensures b == MemByte(frame[..], i)
  {
    b := ByteOf(frame[i / 4], i % 4);
  }

  /** First option byte of the staged frame: 20 bytes of IP header and 20 of TCP header come before. */
  const OPTIONS_AT: nat := 40

  /** The option loop of tcp_rx_process, on the staged frame. It ends for any bytes at all. */
  method ParseFrame(frame: array<word>, doff: nat) returns (p: Peer)
    requires 5 < doff < 16 && OPTIONS_AT + 4 * (doff - 5) + 2 <= 4 * frame.Length
    ensures p == Parse(ReadBytes(frame[..], 10, 4 * (doff - 5) + 2), 0, 4 * (doff - 5), DEFAULTS)
  {
    hide MemByte;
    var end := 4 * (doff - 5);
    ghost var m := ReadBytes(frame[..], 10, end + 2);
    p := DEFAULTS;
    var o := 0;
    while o + 1 < end
      invariant o >= 0 && Parse(m, 0, end, DEFAULTS) == Parse(m, o, end, p)
      decreases end - o
    {
      var k := FrameByte(frame, OPTIONS_AT + o);
      if k == 0 {
        return;
      }
      if k == 1 {
        o := o + 1;
        continue;
      }
      var ln := FrameByte(frame, OPTIONS_AT + o + 1);
      if ln < 2 {
        return;
      }
      if k == 2 && ln >= 4 {
        var hi := FrameByte(frame, OPTIONS_AT + o + 2);
        var lo := FrameByte(frame, OPTIONS_AT + o + 3);
        p := p.(mss := U16Of(hi, lo));
      } else if k == 3 && ln >= 3 {
        var ws := FrameByte(frame, OPTIONS_AT + o + 2);
        p := p.(wscale := Clamp(ws));
      }
      o := o + ln;
    }
  }

  // ---------------------------------------------------------------- option lists

  datatype TcpOption = Nop | Mss(mss: u16) | WindowScale(shift: byte) | Other(kind: byte, data: seq<byte>)

  predicate WellFormed(o: TcpOption) {
    o.Other? ==> o.kind !in {0, 1, 2, 3} && |o.data| <= 38
  }

  function Encode(o: TcpOption): seq<byte>
    requires WellFormed(o)
  {
    match o
    case Nop => [1]
    case Mss(v) => [2, 4, Hi(v), Lo(v)]
    case WindowScale(s) => [3, 3, s]
    case Other(k, d) =>
      var len: byte := 2 + |d|;
      [k, len] + d
  }

  predicate AllWellFormed(os: seq<TcpOption>) { forall i :: 0 <= i < |os| ==> WellFormed(os[i]) }

  function EncodeAll(os: seq<TcpOption>): seq<byte>
    requires AllWellFormed(os)
  {
    if os == [] then [] else Encode(os[0]) + EncodeAll(os[1..])
  }

  /** What a list of options says: its last MSS and its last window scale. */
  function Told(os: seq<TcpOption>, p: Peer): Peer
    decreases |os|
  {
    if os == [] then p
    else Told(os[1..],
              match os[0]
              case Mss(v) => p.(mss := v)
              case WindowScale(s) => p.(wscale := Clamp(s))
              case Nop => p
              case Other(_, _) => p)
  }

  lemma ParseOne(m: seq<byte>, o: nat, end: nat, p: Peer, opt: TcpOption)
    requires end + 2 <= |m| && WellFormed(opt) && o + |Encode(opt)| <= end
    requires m[o..o + |Encode(opt)|] == Encode(opt)
    ensures o + |Encode(opt)| < end || opt != Nop || Parse(m, o, end, p) == p
    ensures opt != Nop || o + 1 < end ==> Parse(m, o, end, p) == Parse(m, o + |Encode(opt)|, end, Told([opt], p))
  {
    var e := Encode(opt);
    var w := m[o..o + |e|];
    assert Told([opt], p) == Told([opt][1..], Told([opt], p));
    assert m[o] == w[0];
    if opt != Nop {
      assert m[o + 1] == w[1];
      if opt.Mss? {
        assert m[o + 2] == w[2] && m[o + 3] == w[3];
        assert U16Of(Hi(opt.mss), Lo(opt.mss)) == opt.mss;
      } else if opt.WindowScale? {
        assert m[o + 2] == w[2];
      }
    }
  }

  /** On any well-formed option list followed by the end of the header or an end-of-list byte, the parser stops with
      the last MSS and the last window scale, 460 and 0 by default. */
  lemma {:induction false} ParseEncoded(m: seq<byte>, o: nat, end: nat, p: Peer, os: seq<TcpOption>)
    requires end + 2 <= |m| && AllWellFormed(os) && o + |EncodeAll(os)| <= end
    requires m[o..o + |EncodeAll(os)|] == EncodeAll(os)
    requires o + |EncodeAll(os)| == end || m[o + |EncodeAll(os)|] == 0
    ensures Parse(m, o, end, p) == Told(os, p)
    decreases |os|
  {
    hide Parse, Encode;
    if os != [] {
      EncodeAllHead(m, o, os);
      ParseOne(m, o, end, p, os[0]);
      hide EncodeAll, Told;
      ParseEncoded(m, o + |Encode(os[0])|, end, Told([os[0]], p), os[1..]);
      if os[0] == Nop && o + 1 >= end {
        ParseEnd(m, o, end, p);
        ParseEnd(m, o + |Encode(os[0])|, end, Told([os[0]], p));
        ToldNop(p);
      }
    } else {
      ParseEnd(m, o, end, p);
    }
  }

  lemma ParseEnd(m: seq<byte>, o: nat, end: nat, p: Peer)
    requires end + 2 <= |m| && (o + 1 >= end || m[o] == 0)
    ensures Parse(m, o, end, p) == p
  {
  }

  lemma ToldNop(p: Peer)
    ensures Told([Nop], p) == p
  {
    assert Told([Nop][1..], p) == p;
  }

  lemma EncodeAllHead(m: seq<byte>, o: nat, os: seq<TcpOption>)
    requires os != [] && AllWellFormed(os)
    requires o + |EncodeAll(os)| <= |m| && m[o..o + |EncodeAll(os)|] == EncodeAll(os)
    ensures var h := Encode(os[0]);
      && |EncodeAll(os)| == |h| + |EncodeAll(os[1..])|
      && m[o..o + |h|] == h && m[o + |h|..o + |EncodeAll(os)|] == EncodeAll(os[1..])
  {
    hide Encode;
    var e, h := EncodeAll(os), Encode(os[0]);
    assert e[..|h|] == h && e[|h|..] == EncodeAll(os[1..]);
    assert m[o..o + |h|] == m[o..o + |e|][..|h|];
    assert m[o + |h|..o + |e|] == m[o..o + |e|][|h|..];
  }

  /** The block tcp_build_hdr puts into a SYN-ACK. */
  const OUR_BLOCK: seq<byte> := [2, 4, Hi(OUR_MSS), Lo(OUR_MSS), 3, 3, 7, 1]

  /** The parser recovers MSS 460 and window scale 7 from the block the stack itself writes. */
  lemma OurBlockParses(m: seq<byte>)
    requires |m| == 10 && m[..8] == OUR_BLOCK
    ensures Parse(m, 0, 8, DEFAULTS) == Peer(460, 7)
  {
    var os := [Mss(OUR_MSS), WindowScale(7), Nop];
    assert os[1..] == [WindowScale(7), Nop] && os[1..][1..] == [Nop] && os[1..][1..][1..] == [];
    assert EncodeAll(os[1..][1..]) == [1];
    assert EncodeAll(os[1..]) == [3, 3, 7] + [1];
    assert EncodeAll(os) == OUR_BLOCK;
    assert m[0..8] == OUR_BLOCK;
    ParseEncoded(m, 0, 8, DEFAULTS, os);
    assert Told(os, DEFAULTS) == Told(os[1..], Peer(460, 0)) == Told(os[1..][1..], Peer(460, 7)) == Peer(460, 7);
  }
}
