/** Group membership of layer_igmp.cpp: a report for every query about all groups or the board's own. */
module Igmp {
  import opened Bytes
  import opened Checksum
  import opened Layout
  import opened Store
  import Ip

  const IGMP_BASE: nat := 5
  const QUERY: byte := 0x11
  const REPORT_V1: byte := 0x12
  const REPORT_V2: byte := 0x16
  const BOARD_GROUP: word := WordOf(239, 0, 0, 1)

  /** The staged message is a query that concerns the board. */
  predicate Asked(frame: seq<word>)
    requires |frame| == FRAME_BUF_WORDS
  {
    ByteOf(frame[IGMP_BASE], 0) == QUERY && (frame[IGMP_BASE + 1] == 0 || frame[IGMP_BASE + 1] == BOARD_GROUP)
  }

  /** A query without a response time comes from a version 1 router and is answered in kind. */
  function Kind(frame: seq<word>): byte
    requires |frame| == FRAME_BUF_WORDS
  {
    if ByteOf(frame[IGMP_BASE], 1) == 0 then REPORT_V1 else REPORT_V2
  }

  function ReportWith(kind: byte, c: u16): (s: seq<byte>)
    ensures |s| == 8
  {
    [kind, 0, Hi(c), Lo(c)] + WordBytes(BOARD_GROUP)
  }

  function ReportBytes(kind: byte): (s: seq<byte>)
    ensures |s| == 8
  {
    ReportWith(kind, Check(Sum16(ReportWith(kind, 0))))
  }

  function Header(): (h: seq<byte>)
    ensures |h| == 20
  {
    Ip.Header(28, 0, 1, Ip.PROTO_IGMP, BOARD_IP, BOARD_GROUP)
  }

  function ReportBuffer(mem: seq<word>, frame: seq<word>): (r: seq<word>)
    requires |mem| == BUFFER_DEPTH && |frame| == FRAME_BUF_WORDS
    ensures |r| == BUFFER_DEPTH
  {
    Stored(Stored(mem, TX_SCRATCH_BASE + 5, WordsOf(ReportBytes(Kind(frame)), 2)), TX_SCRATCH_BASE,
        WordsOf(Header(), 5))
  }

  function ReportReq(r: TxReq): TxReq {
    r.(dst := BROADCAST_MAC, ethertype := ETHERTYPE_IPV4, addr := TX_SCRATCH_BASE, len := 28, request := true)
  }

  class Reporter {
    /** igmp_rx_process. */
    static method Process(frame: array<word>, buffer: array<word>, reg: ReqRegister)
      requires frame != buffer && frame.Length == FRAME_BUF_WORDS && buffer.Length == BUFFER_DEPTH
      modifies buffer, reg
      ensures buffer[..] == (if Asked(old(frame[..])) then ReportBuffer(old(buffer[..]), old(frame[..]))
          else old(buffer[..]))
      ensures reg.req == (if Asked(old(frame[..])) then ReportReq(old(reg.req)) else old(reg.req))
    {
      hide WordsOf, Ip.Header, ReportBytes, ByteOf;
      var w, group := frame[IGMP_BASE], frame[IGMP_BASE + 1];
      if ByteOf(w, 0) == QUERY && (group == 0 || group == BOARD_GROUP) {
        var report := Build(if ByteOf(w, 1) == 0 then REPORT_V1 else REPORT_V2);
        StoreBytes(buffer, TX_SCRATCH_BASE + 5, report, 2);
        var hdr := Ip.BuildHeader(28, 0, 1, Ip.PROTO_IGMP, BOARD_IP, BOARD_GROUP);
        StoreBytes(buffer, TX_SCRATCH_BASE, hdr, 5);
        reg.req := ReportReq(reg.req);
      }
    }

    /** The report, its checksum computed over a zeroed field; igmp_checksum is the loop of icmp_checksum. */
    static method Build(kind: byte) returns (report: array<byte>)
      ensures fresh(report) && report[..] == ReportBytes(kind)
    {
      hide Check, Sum16;
      var z := ReportWith(kind, 0);
      report := new byte[8](i requires 0 <= i < 8 => z[i]);
      assert report[..8] == z;
      var c := IcmpChecksum(report, 8);
      report[2], report[3] := Hi(c), Lo(c);
      assert report[..] == ReportWith(kind, c);
    }
  }

  /** The bytes of a report: an accepted header from the board to its group with TTL 1, then a message that verifies,
      of a kind, without response time, about the group; section 2 of RFC 2236. */
  predicate Report(p: seq<byte>, kind: byte) {
    && |p| == 28 && Ip.Accepts(p[..20])
    && Ip.Parse(p[..20]).(valid := true) == Ip.IpRx(true, Ip.PROTO_IGMP, 28, 0, 1, BOARD_IP, BOARD_GROUP)
    && Check(Sum16(p[20..])) == 0 && p[20] == kind && p[21] == 0 && Ip.WordAt(p, 24) == BOARD_GROUP
  }

  /** The report as sent is of the querier's version. */
  lemma ReportReads(mem: seq<word>, frame: seq<word>)
    requires |mem| == BUFFER_DEPTH && |frame| == FRAME_BUF_WORDS
    ensures Report(ReadBytes(ReportBuffer(mem, frame), TX_SCRATCH_BASE, 28), Kind(frame))
  {
    hide WordsOf, Ip.Header, Ip.Accepts, Ip.Parse, Check, Sum16, MemByte, Kind;
    var r := ReportBytes(Kind(frame));
    var m1 := Stored(mem, TX_SCRATCH_BASE + 5, WordsOf(r, 2));
    var out := ReportBuffer(mem, frame);
    ReadStored(mem, TX_SCRATCH_BASE + 5, r, 2, 8);
    ReadApart(m1, TX_SCRATCH_BASE, WordsOf(Header(), 5), TX_SCRATCH_BASE + 5, 8);
    ReadStored(m1, TX_SCRATCH_BASE, Header(), 5, 20);
    assert r[..8] == r && Header()[..20] == Header();
    Ip.HeaderAccepted(28, 0, 1, Ip.PROTO_IGMP, BOARD_IP, BOARD_GROUP);
    ReportVerifies(Kind(frame));
    var p := ReadBytes(out, TX_SCRATCH_BASE, 28);
    assert p == ReadBytes(out, TX_SCRATCH_BASE, 20) + ReadBytes(out, TX_SCRATCH_BASE + 5, 8);
    PacketParts(p, Header(), r);
  }

  lemma PacketParts(p: seq<byte>, h: seq<byte>, r: seq<byte>)
    requires |h| == 20 && |r| == 8 && p == h + r
    ensures p[..20] == h && p[20..] == r && p[20] == r[0] && p[21] == r[1] && Ip.WordAt(p, 24) == Ip.WordAt(r, 4)
  {
    hide WordOf;
  }

  lemma ReportVerifies(kind: byte)
    ensures var m := ReportBytes(kind);
      Check(Sum16(m)) == 0 && m[0] == kind && m[1] == 0 && Ip.WordAt(m, 4) == BOARD_GROUP
  {
    hide Check, Sum16;
    var z := ReportWith(kind, 0);
    var c := Check(Sum16(z));
    FillVerifies(0, z, 2);
    var t: seq<byte> := z[2 := Hi(c)][3 := Lo(c)];
    assert t == ReportWith(kind, c);
    WordOfByteOf(BOARD_GROUP);
  }
}
