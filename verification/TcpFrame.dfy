/** The bytes of the segments tcp_send writes, and of those tcp_rx_process reads. */
module TcpFrame {
  import opened Bytes
  import opened Checksum
  import opened Layout
  import opened Store
  import opened Tcp
  import Ip
  import O = TcpOptions

  /** Size of the segment scratch array: 28 header bytes and one chunk. */
  const SCRATCH: nat := 28 + TX_CHUNK

  function OptionBlock(flags: Flags): seq<byte> { if HasSyn(flags) then O.OUR_BLOCK else [] }

  function DataOffset(flags: Flags): byte { if HasSyn(flags) then 7 else 5 }

  /** tcp_build_hdr with a given checksum field. */
  function HeaderWith(c: Conn, flags: Flags, csum: u16): (h: seq<byte>)
    ensures |h| == 4 * DataOffset(flags)
  {
    [Hi(ECHO_PORT), Lo(ECHO_PORT), Hi(c.peerPort), Lo(c.peerPort)] + WordBytes(c.sndSeq) + WordBytes(c.peerSeq)
    + [DataOffset(flags) * 16, flags, 0xFF, 0xFF, Hi(csum), Lo(csum), 0, 0] + OptionBlock(flags)
  }

  predicate Sendable(flags: Flags, payload: seq<byte>) {
    |payload| <= TX_CHUNK && (HasSyn(flags) ==> payload == [])
  }

  function SegmentWith(c: Conn, flags: Flags, payload: seq<byte>, csum: u16): (s: seq<byte>)
    requires Sendable(flags, payload)
    ensures |s| == 4 * DataOffset(flags) + |payload| <= SCRATCH
  {
    HeaderWith(c, flags, csum) + payload
  }

  function SegmentChecksum(c: Conn, flags: Flags, payload: seq<byte>): u16
    requires Sendable(flags, payload)
  {
    Check(TcpSum(BOARD_IP, c.peerIp, SegmentWith(c, flags, payload, 0)))
  }

  /** A segment as sent: checksum over the pseudo-header and the segment with a zeroed field. */
  function SegmentBytes(c: Conn, flags: Flags, payload: seq<byte>): (s: seq<byte>)
    requires Sendable(flags, payload)
    ensures |s| == 4 * DataOffset(flags) + |payload| <= SCRATCH
  {
    SegmentWith(c, flags, payload, SegmentChecksum(c, flags, payload))
  }

  function IpHeader(c: Conn, n: nat): (h: seq<byte>)
    requires n <= SCRATCH
    ensures |h| == 20
  {
    Ip.Header(20 + n, 0, 128, Ip.PROTO_TCP, BOARD_IP, c.peerIp)
  }

  /** What a peer reads from a segment. */
  function SeqOf(s: seq<byte>): word
    requires |s| >= 20
  {
    Ip.WordAt(s, 4)
  }

  function AckOf(s: seq<byte>): word
    requires |s| >= 20
  {
    Ip.WordAt(s, 8)
  }

  /** Every segment sent verifies under its pseudo-header and reads back as what it was built from. */
  lemma SegmentReadsBack(c: Conn, flags: Flags, payload: seq<byte>)
    requires Sendable(flags, payload)
    ensures var s := SegmentBytes(c, flags, payload);
      && Check(TcpSum(BOARD_IP, c.peerIp, s)) == 0
      && U16Of(s[0], s[1]) == ECHO_PORT && U16Of(s[2], s[3]) == c.peerPort
      && SeqOf(s) == c.sndSeq && AckOf(s) == c.peerSeq && s[12] == 16 * DataOffset(flags) && s[13] == flags
      && s[14] == s[15] == 0xFF && s[18] == s[19] == 0
      && s[4 * DataOffset(flags)..] == payload
      && (HasSyn(flags) ==> s[20..28] == O.OUR_BLOCK)
  {
    hide HeaderWith, SegmentChecksum, Check;
    var v := SegmentChecksum(c, flags, payload);
    SegmentVerifies(c, flags, payload);
    HeaderFields(c, flags, v);
    HeadOf(HeaderWith(c, flags, v), payload);
  }

  lemma SegmentVerifies(c: Conn, flags: Flags, payload: seq<byte>)
    requires Sendable(flags, payload)
    ensures Check(TcpSum(BOARD_IP, c.peerIp, SegmentBytes(c, flags, payload))) == 0
  {
    hide SegmentWith, Check, Sum16, PseudoSum;
    var z := SegmentWith(c, flags, payload, 0);
    SegmentFilled(c, flags, payload, SegmentChecksum(c, flags, payload));
    FillVerifies(PseudoSum(BOARD_IP, c.peerIp, |z|), z, 16);
  }

  /** The head of a segment is its header, the rest its payload. */
  lemma HeadOf(h: seq<byte>, payload: seq<byte>)
    requires |h| >= 20
    ensures (h + payload)[..|h|] == h && (h + payload)[|h|..] == payload
    ensures forall i :: 0 <= i < |h| ==> (h + payload)[i] == h[i]
    ensures |h| == 28 ==> (h + payload)[20..28] == h[20..28]
  {
  }

  lemma SegmentFilled(c: Conn, flags: Flags, payload: seq<byte>, v: u16)
    requires Sendable(flags, payload)
    ensures var z := SegmentWith(c, flags, payload, 0);
      z[16 := Hi(v)][17 := Lo(v)] == SegmentWith(c, flags, payload, v) && z[16] == 0 && z[17] == 0
  {
    hide ByteOf;
    HeaderFilled(c, flags, v);
    hide HeaderWith;
  }

  lemma HeaderFilled(c: Conn, flags: Flags, v: u16)
    ensures var z: seq<byte> := HeaderWith(c, flags, 0);
      z[16 := Hi(v)][17 := Lo(v)] == HeaderWith(c, flags, v) && z[16] == 0 && z[17] == 0
  {
    hide ByteOf;
    var a: seq<byte> :=
      [Hi(ECHO_PORT), Lo(ECHO_PORT), Hi(c.peerPort), Lo(c.peerPort)] + WordBytes(c.sndSeq) + WordBytes(c.peerSeq);
    assert |a| == 12;
    var z: seq<byte> := HeaderWith(c, flags, 0);
    assert z == a + ([DataOffset(flags) * 16, flags, 0xFF, 0xFF, 0, 0, 0, 0] + OptionBlock(flags));
    assert HeaderWith(c, flags, v)
        == a + ([DataOffset(flags) * 16, flags, 0xFF, 0xFF, Hi(v), Lo(v), 0, 0] + OptionBlock(flags));
  }

  lemma HiLo(x: u16)
    ensures U16Of(Hi(x), Lo(x)) == x
  {
  }

  lemma WordAtSlice(h: seq<byte>, i: nat, w: word)
    requires i + 4 <= |h| && h[i..i + 4] == WordBytes(w)
    ensures Ip.WordAt(h, i) == w
  {
    WordOfByteOf(w);
    hide ByteOf, WordOf;
    var s := h[i..i + 4];
    assert h[i] == s[0] && h[i + 1] == s[1] && h[i + 2] == s[2] && h[i + 3] == s[3];
  }

  lemma HeaderFields(c: Conn, flags: Flags, v: u16)
    ensures var h := HeaderWith(c, flags, v);
      && U16Of(h[0], h[1]) == ECHO_PORT && U16Of(h[2], h[3]) == c.peerPort
      && Ip.WordAt(h, 4) == c.sndSeq && Ip.WordAt(h, 8) == c.peerSeq
      && h[12] == 16 * DataOffset(flags) && h[13] == flags && h[14] == h[15] == 0xFF && h[18] == h[19] == 0
      && (HasSyn(flags) ==> h[20..28] == O.OUR_BLOCK)
  {
    hide WordBytes, Hi, Lo;
    var h := HeaderWith(c, flags, v);
    var a: seq<byte> := [Hi(ECHO_PORT), Lo(ECHO_PORT), Hi(c.peerPort), Lo(c.peerPort)];
    var d: seq<byte> := [DataOffset(flags) * 16, flags, 0xFF, 0xFF, Hi(v), Lo(v), 0, 0];
    WordBytesLength(c.sndSeq);
    WordBytesLength(c.peerSeq);
    hide HeaderWith;
    HiLo(ECHO_PORT);
    HiLo(c.peerPort);
    WordAtSlice(h, 4, c.sndSeq);
    WordAtSlice(h, 8, c.peerSeq);
    assert h[0] == h[..4][0] && h[1] == h[..4][1] && h[2] == h[..4][2] && h[3] == h[..4][3];
    var t := h[12..20];
    assert t == d;
    assert h[12] == t[0] && h[13] == t[1] && h[14] == t[2] && h[15] == t[3] && h[18] == t[6] && h[19] == t[7];
    if HasSyn(flags) {
      assert h[20..28] == h[20..][..8];
    }
  }

  lemma WordBytesLength(w: word)
    ensures |WordBytes(w)| == 4
  {
  }

  // ---------------------------------------------------------------- in the buffer

  /** The transmit region after tcp_send; the bytes of the scratch array beyond the segment are whatever they were,
      and fill the last word. */
  function SendBuffer(mem: seq<word>, c: Conn, flags: Flags, payload: seq<byte>, stale: seq<byte>): (r: seq<word>)
    requires |mem| == BUFFER_DEPTH && Sendable(flags, payload) && |stale| == SCRATCH
    ensures |r| == |mem|
  {
    var s := SegmentBytes(c, flags, payload);
    Stored(Stored(mem, TX_UDP_BASE, WordsOf(IpHeader(c, |s|), 5)), TX_UDP_BASE + 5,
           WordsOf(s + stale[|s|..], (|s| + 3) / 4))
  }

  function SendReq(r: TxReq, m: Option<mac>, n: nat): TxReq
    requires n <= SCRATCH
  {
    r.(dst := if m.Some? then m.value else BROADCAST_MAC, ethertype := ETHERTYPE_IPV4,
       addr := TX_UDP_BASE, len := 20 + n, request := true)
  }

  /** The bytes of a packet from the board to a peer: a header the receive check accepts, then the segment. */
  predicate Packet(p: seq<byte>, peer: word, s: seq<byte>) {
    && |s| <= SCRATCH && |p| == 20 + |s| && p[20..] == s && Ip.Accepts(p[..20])
    && Ip.Parse(p[..20]).(valid := true) == Ip.IpRx(true, Ip.PROTO_TCP, 20 + |s|, 0, 128, BOARD_IP, peer)
  }

  lemma PacketBuilt(c: Conn, s: seq<byte>)
    requires |s| <= SCRATCH
    ensures Packet(IpHeader(c, |s|) + s, c.peerIp, s)
  {
    hide Ip.Header, Ip.Accepts, Ip.Parse;
    var h := IpHeader(c, |s|);
    assert (h + s)[..20] == h && (h + s)[20..] == s;
    Ip.HeaderAccepted(20 + |s|, 0, 128, Ip.PROTO_TCP, BOARD_IP, c.peerIp);
  }

  /** The requested bytes are a packet from the board to the peer with the segment, and nothing else of the buffer is
      written. */
  lemma SendReads(mem: seq<word>, c: Conn, flags: Flags, payload: seq<byte>, stale: seq<byte>)
    requires |mem| == BUFFER_DEPTH && Sendable(flags, payload) && |stale| == SCRATCH
    ensures var s := SegmentBytes(c, flags, payload);
      var out := SendBuffer(mem, c, flags, payload, stale);
      && Packet(ReadBytes(out, TX_UDP_BASE, 20 + |s|), c.peerIp, s)
      && forall j :: 0 <= j < BUFFER_DEPTH && !(TX_UDP_BASE <= j < TX_UDP_BASE + 5 + (|s| + 3) / 4) ==> out[j] == mem[j]
  {
    hide SegmentBytes, IpHeader, WordsOf, Packet;
    var s := SegmentBytes(c, flags, payload);
    PacketBuilt(c, s);
    var h := IpHeader(c, |s|);
    var m1 := Stored(mem, TX_UDP_BASE, WordsOf(h, 5));
    var full := s + stale[|s|..];
    var out := SendBuffer(mem, c, flags, payload, stale);
    ReadStored(mem, TX_UDP_BASE, h, 5, 20);
    ReadApart(m1, TX_UDP_BASE + 5, WordsOf(full, (|s| + 3) / 4), TX_UDP_BASE, 20);
    ReadStored(m1, TX_UDP_BASE + 5, full, (|s| + 3) / 4, |s|);
    assert h[..20] == h && full[..|s|] == s;
    assert ReadBytes(out, TX_UDP_BASE, 20 + |s|)
        == ReadBytes(out, TX_UDP_BASE, 20) + ReadBytes(out, TX_UDP_BASE + 5, |s|);
  }

  // ---------------------------------------------------------------- received segments

  function PayloadLength(totalLen: u16, doff: nat): int { totalLen - 20 - 4 * doff }

  function DstPort(frame: seq<word>): u16
    requires |frame| == FRAME_BUF_WORDS
  {
    U16Of(MemByte(frame, 22), MemByte(frame, 23))
  }

  /** A segment for the echo port has length fields that make sense and a payload that fits the payload array. Of
      segments to other ports no more than the header is read. */
  predicate LengthsFit(ip: Ip.IpRx, frame: seq<word>)
    requires |frame| == FRAME_BUF_WORDS
  {
    DstPort(frame) == ECHO_PORT ==> 0 <= PayloadLength(ip.totalLen, MemByte(frame, 32) / 16) <= SEND_BUF
  }

  function PayloadOf(ip: Ip.IpRx, frame: seq<word>): (p: seq<byte>)
    requires |frame| == FRAME_BUF_WORDS && LengthsFit(ip, frame)
    ensures |p| <= SEND_BUF
  {
    var doff := MemByte(frame, 32) / 16;
    if DstPort(frame) == ECHO_PORT then ReadBytes(frame, 5 + doff, PayloadLength(ip.totalLen, doff)) else []
  }

  lemma {:induction false} ParseClamped(m: seq<byte>, o: nat, end: nat, p: O.Peer)
    requires end + 2 <= |m| && p.wscale <= 7
    ensures O.Parse(m, o, end, p).wscale <= 7
    decreases end - o
  {
    if o + 1 < end && m[o] != 0 {
      if m[o] == 1 {
        ParseClamped(m, o + 1, end, p);
      } else if m[o + 1] >= 2 {
        ParseClamped(m, o + m[o + 1], end, O.Absorb(m, o, p));
      }
    }
  }

  lemma PeerClamped(frame: seq<word>)
    requires |frame| == FRAME_BUF_WORDS
    ensures var doff := MemByte(frame, 32) / 16;
      doff > 5 ==> O.Parse(ReadBytes(frame, 10, 4 * (doff - 5) + 2), 0, 4 * (doff - 5), O.DEFAULTS).wscale <= 7
  {
    hide MemByte;
    var doff := MemByte(frame, 32) / 16;
    if doff > 5 {
      ParseClamped(ReadBytes(frame, 10, 4 * (doff - 5) + 2), 0, 4 * (doff - 5), O.DEFAULTS);
    }
  }

  /** Options of the staged segment, or the defaults when it has none. */
  function PeerOf(frame: seq<word>): (r: O.Peer)
    requires |frame| == FRAME_BUF_WORDS
    ensures r.wscale <= 7
  {
    var doff := MemByte(frame, 32) / 16;
    PeerClamped(frame);
    if doff > 5 then O.Parse(ReadBytes(frame, 10, 4 * (doff - 5) + 2), 0, 4 * (doff - 5), O.DEFAULTS) else O.DEFAULTS
  }

  /** The segment in a staged frame. */
  function ParseSegment(ip: Ip.IpRx, frame: seq<word>): Segment
    requires |frame| == FRAME_BUF_WORDS && LengthsFit(ip, frame)
  {
    var th := ReadBytes(frame, 5, 20);
    Segment(ip.srcIp, U16Of(th[0], th[1]), DstPort(frame), Ip.WordAt(th, 4), Ip.WordAt(th, 8), th[13],
            U16Of(th[14], th[15]), PeerOf(frame), PayloadOf(ip, frame))
  }

  lemma ParsedValid(ip: Ip.IpRx, frame: seq<word>)
    requires |frame| == FRAME_BUF_WORDS && LengthsFit(ip, frame)
    ensures ValidSegment(ParseSegment(ip, frame)) && ParseSegment(ip, frame).peer.wscale <= 7
  {
    hide MemByte, PeerOf, PayloadOf;
  }
}
