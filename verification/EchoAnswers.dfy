/** From received bytes to the answer on the wire: ARP questions, group queries, and TCP segments. */
module EchoAnswers {
  import opened Bytes
  import opened Layout
  import opened Arp
  import opened Echo
  import opened EchoIntegrity
  import opened EchoRuns
  import opened EchoLive
  import opened EchoTcp
  import opened EchoReceive
  import opened MacFrames
  import Checksum
  import Icmp
  import Igmp
  import Ip
  import MacRx
  import MacTx
  import O = TcpOptions
  import Tcp
  import TcpFrame
  import TcpLife
  import TcpTable
  import Udp

  // ---------------------------------------------------------------- ARP

  /** An ARP question about the board. */
  predicate Question(f: Frame) {
    && f.ethertype == ETHERTYPE_ARP && Stageable(f) && |f.rest| >= 28 && U16Of(f.rest[6], f.rest[7]) == 1
    && WordOf(f.rest[24], f.rest[25], f.rest[26], f.rest[27]) == BOARD_IP
  }

  /** A frame long enough for an ARP message. */
  predicate ArpFrame(f: Frame) { f.ethertype == ETHERTYPE_ARP && Stageable(f) && |f.rest| >= 28 }

  function AskerMac(f: Frame): mac
    requires |f.rest| >= 28
  {
    MacOf(f.rest[8..14])
  }

  function AskerIp(f: Frame): word
    requires |f.rest| >= 28
  {
    WordOf(f.rest[14], f.rest[15], f.rest[16], f.rest[17])
  }

  lemma ArpParsed(frame: seq<word>, f: Frame)
    requires |frame| == FRAME_BUF_WORDS && ArpFrame(f) && ReadBytes(frame, 0, |f.rest|) == f.rest
    ensures ReadBytes(frame, 0, 28) == f.rest[..28]
    ensures var a := Udp.ParseArp(frame);
      && a.senderMac == AskerMac(f) && a.senderIp == AskerIp(f) && (Udp.Asks(a) <==> Question(f))
  {
    hide MacOf, WordOf, MemByte, U16Of;
    var all, p := ReadBytes(frame, 0, |f.rest|), ReadBytes(frame, 0, 28);
    assert p == all[..28];
    assert p[8..14] == f.rest[8..14];
  }

  /** Every ARP frame teaches its sender's binding: the next lookup finds it. One that is no question about the board
      does nothing else. */
  lemma ArpLearned(t: Top, i: Input, c0: MacRx.Channel, f: Frame)
    requires Sized(t) && ValidInput(i) && Completes(c0, t.ch, i, f) && ArpFrame(f)
    ensures Callable(t, i)
    ensures var (a, g) := (AfterMac(t, i), AfterFrame(t, i));
      && Answer(g.arp, AskerIp(f)) == Some(AskerMac(f))
      && (!Question(f) ==> g == a.(arp := Learn(a.arp, AskerIp(f), AskerMac(f))))
  {
    hide AfterMac, FrameNow, Arrived, Completes, MacTx.Legal, SaneTable, MacRx.Live, Question, ArpFrame, AskerMac,
         AskerIp, Learn, Answer, Udp.ParseArp, Udp.AnswerBuffer;
    Long(f);
    FrameStaged(t, i, c0, f);
    ArpParsed(FrameNow(t, i), f);
    TaughtNow(AfterMac(t, i).arp, AskerIp(f), AskerMac(f));
  }

  lemma Long(f: Frame)
    requires ArpFrame(f)
    ensures |f.rest| >= 28 && Stageable(f) && f.ethertype == ETHERTYPE_ARP
  {
  }

  lemma TaughtNow(c: Cache, ip: word, m: mac)
    ensures Answer(Learn(c, ip, m), ip) == Some(m)
  {
    FindIs(Learn(c, ip, m).l1, ip, 0);
  }

  /** The call that completes a question about the board asks for exactly one frame, if the register is free: the
      answer, to the asker, with the board as sender and the asker as target; and the asker's binding is known from
      then on. */
  lemma QuestionAsked(t: Top, i: Input, pacing: nat, c0: MacRx.Channel, f: Frame)
    requires Inv(t) && Sized(t) && ValidInput(i) && Free(t, i) && Completes(c0, t.ch, i, f) && Question(f)
    ensures Callable(t, i) && Gated(t, i) && |Asked(t, i, pacing)| == 1
    ensures var j := Asked(t, i, pacing)[0];
      && j.req.dst == AskerMac(f) && j.req.ethertype == ETHERTYPE_ARP
      && Udp.ArpMessage(j.payload, 2, BOARD_MAC, BOARD_IP, AskerMac(f), AskerIp(f))
    ensures Answer(Step(t, i, pacing).arp, AskerIp(f)) == Some(AskerMac(f))
  {
    hide AfterMac, FrameNow, Arrived, Completes, MacTx.Legal, SaneTable, MacRx.Live, Question, AskerMac, AskerIp,
         Learn, Inv, Answer, Udp.ParseArp, Udp.AnswerBuffer, Udp.ArpMessage, Busy, MemByte, Step, Segment;
    QuestionIsArp(f);
    Long(f);
    FrameStaged(t, i, c0, f);
    ArpParsed(FrameNow(t, i), f);
    ArpLearned(t, i, c0, f);
    Udp.AnswerReads(AfterMac(t, i).buffer, FrameNow(t, i));
    AnswerStands(t, i, pacing);
    SamePlace(FrameNow(t, i), f);
  }

  lemma QuestionIsArp(f: Frame)
    requires Question(f)
    ensures ArpFrame(f)
  {
  }

  lemma SamePlace(frame: seq<word>, f: Frame)
    requires |frame| == FRAME_BUF_WORDS && ArpFrame(f) && ReadBytes(frame, 0, 28) == f.rest[..28]
    ensures var q := ReadBytes(frame, 0, 28); MacOf(q[8..14]) == AskerMac(f) && Ip.WordAt(q, 14) == AskerIp(f)
  {
    hide MacOf, WordOf, MemByte;
    assert f.rest[..28][8..14] == f.rest[8..14];
  }

  /** A question, end to end: the wire has carried the answer, whole, once the calls due have been made. */
  lemma AnswerOnLine(t: Top, i: Input, pacing: nat, c0: MacRx.Channel, f: Frame, ins: seq<Input>)
    requires Inv(t) && Sized(t) && ValidInput(i) && Free(t, i) && Completes(c0, t.ch, i, f) && Question(f)
    requires Callable(t, i) ==> GatedRun(Step(t, i, pacing), ins, pacing) && |ins| >= FLUSH_CALLS
    ensures Callable(t, i) && |Asked(t, i, pacing)| == 1
    ensures var j := Asked(t, i, pacing)[0];
      && j.req.dst == AskerMac(f)
      && Udp.ArpMessage(j.payload, 2, BOARD_MAC, BOARD_IP, AskerMac(f), AskerIp(f))
      && Rest(t) + MacTx.Wire(j.req, j.payload) <= Written(t) + Line(Step(t, i, pacing), ins, pacing)
  {
    hide Sized, Inv, Callable, Gated, Free, Completes, Question, AskerMac, AskerIp, GatedRun, Step, Asked,
         Udp.ArpMessage;
    QuestionIsArp(f);
    Long(f);
    QuestionAsked(t, i, pacing, c0, f);
    AskedOnLine(t, i, pacing, ins);
  }

  // ---------------------------------------------------------------- group queries

  /** A group query that concerns the board: about all groups or its own, 239.0.0.1. */
  predicate GroupQuery(m: seq<byte>) {
    |m| >= 8 && m[0] == 0x11 && (Ip.WordAt(m, 4) == 0 || Ip.WordAt(m, 4) == WordOf(239, 0, 0, 1))
  }

  /** The kind of report a query is answered with: version 1 if it names no response time, else version 2. */
  function ReportKind(m: seq<byte>): byte
    requires |m| >= 8
  {
    if m[1] == 0 then 0x12 else 0x16
  }

  lemma QueryParsed(frame: seq<word>, m: seq<byte>)
    requires |frame| == FRAME_BUF_WORDS && |m| >= 8 && 20 + |m| <= 4 * FRAME_BUF_WORDS && ReadBytes(frame, 5, |m|) == m
    ensures (Igmp.Asked(frame) <==> GroupQuery(m)) && Igmp.Kind(frame) == ReportKind(m)
  {
    WordOfByteOf(frame[6]);
    hide ByteOf, WordOf;
    MemByteAt(frame, 5, 0);
    MemByteAt(frame, 5, 1);
    MemByteAt(frame, 6, 0);
    MemByteAt(frame, 6, 1);
    MemByteAt(frame, 6, 2);
    MemByteAt(frame, 6, 3);
    assert m[0] == MemByte(frame, 20) && m[1] == MemByte(frame, 21);
    assert m[4] == MemByte(frame, 24) && m[5] == MemByte(frame, 25) && m[6] == MemByte(frame, 26)
        && m[7] == MemByte(frame, 27);
  }

  /** A group message that is no query for the board has no effect; one that is asks for exactly one frame, the report
      of the querier's version, if the register is free. */
  lemma QueryAsked(t: Top, i: Input, pacing: nat, c0: MacRx.Channel, f: Frame, m: seq<byte>)
    requires Inv(t) && Sized(t) && ValidInput(i) && Free(t, i) && |m| >= 8
    requires Completes(c0, t.ch, i, f) && Carries(f, Ip.PROTO_IGMP, m)
    ensures Callable(t, i)
    ensures !GroupQuery(m) ==> AfterFrame(t, i) == AfterMac(t, i)
    ensures GroupQuery(m) ==>
      && Gated(t, i) && |Asked(t, i, pacing)| == 1
      && Igmp.Report(Asked(t, i, pacing)[0].payload, ReportKind(m))
      && Asked(t, i, pacing)[0].req.dst == BROADCAST_MAC && Asked(t, i, pacing)[0].req.ethertype == ETHERTYPE_IPV4
  {
    hide AfterMac, FrameNow, Arrived, Completes, MacTx.Legal, SaneTable, MacRx.Live, Ip.Parse, Igmp.Asked, Igmp.Kind,
         GroupQuery, ReportKind, Igmp.ReportBuffer, Igmp.Report, Busy, MemByte, Step, Segment, Inv;
    HeaderStaged(t, i, c0, f, Ip.PROTO_IGMP, m);
    QueryParsed(FrameNow(t, i), m);
    if GroupQuery(m) {
      Igmp.ReportReads(AfterMac(t, i).buffer, FrameNow(t, i));
      AnswerStands(t, i, pacing);
    }
  }

  /** A group query, end to end. */
  lemma ReportOnLine(t: Top, i: Input, pacing: nat, c0: MacRx.Channel, f: Frame, m: seq<byte>, ins: seq<Input>)
    requires Inv(t) && Sized(t) && ValidInput(i) && Free(t, i)
    requires Completes(c0, t.ch, i, f) && Carries(f, Ip.PROTO_IGMP, m) && GroupQuery(m)
    requires Callable(t, i) ==> GatedRun(Step(t, i, pacing), ins, pacing) && |ins| >= FLUSH_CALLS
    ensures Callable(t, i) && |Asked(t, i, pacing)| == 1
    ensures var j := Asked(t, i, pacing)[0];
      && Igmp.Report(j.payload, ReportKind(m))
      && Rest(t) + MacTx.Wire(j.req, j.payload) <= Written(t) + Line(Step(t, i, pacing), ins, pacing)
  {
    hide Sized, Inv, Callable, Gated, Free, Completes, Carries, GatedRun, Step, Asked, Igmp.Report, ReportKind,
         Ip.WordAt;
    QueryAsked(t, i, pacing, c0, f, m);
    AskedOnLine(t, i, pacing, ins);
  }

  // ---------------------------------------------------------------- other ICMP

  /** An ICMP message is answered exactly if its type is 8 and its code 0. */
  lemma AnsweredIffRequest(frame: seq<word>, m: seq<byte>)
    requires |frame| == FRAME_BUF_WORDS && |m| >= 2 && 20 + |m| <= 4 * FRAME_BUF_WORDS && ReadBytes(frame, 5, |m|) == m
    ensures Icmp.Answers(frame) <==> m[0] == 8 && m[1] == 0
  {
    hide ByteOf;
    MemByteAt(frame, 5, 0);
    MemByteAt(frame, 5, 1);
    assert m[0] == MemByte(frame, 20) && m[1] == MemByte(frame, 21);
  }

  /** Any other message changes nothing. */
  lemma OthersIgnored(t: Top, i: Input, c0: MacRx.Channel, f: Frame, m: seq<byte>)
    requires Sized(t) && ValidInput(i) && |m| >= 2 && !(m[0] == 8 && m[1] == 0)
    requires Completes(c0, t.ch, i, f) && Carries(f, Ip.PROTO_ICMP, m)
    ensures Callable(t, i) && AfterFrame(t, i) == AfterMac(t, i)
  {
    hide AfterMac, FrameNow, Arrived, Completes, MacTx.Legal, SaneTable, MacRx.Live, Ip.Parse, Icmp.Answers, MemByte;
    HeaderStaged(t, i, c0, f, Ip.PROTO_ICMP, m);
    AnsweredIffRequest(FrameNow(t, i), m);
  }

  // ---------------------------------------------------------------- what is ignored

  /** Frames of other ethertypes, damaged headers and datagrams for others, unknown protocols, and UDP to other ports
      change nothing. */
  predicate Foreign(f: Frame) {
    && Stageable(f) && f.ethertype != ETHERTYPE_ARP && |f.rest| >= 28
    && var ip := Ip.Parse(f.rest[..20]);
       || f.ethertype != ETHERTYPE_IPV4 || !ip.valid
       || (ip.protocol != Ip.PROTO_ICMP && ip.protocol != Ip.PROTO_IGMP && ip.protocol != Ip.PROTO_TCP
           && (ip.protocol == Ip.PROTO_UDP ==> U16Of(f.rest[22], f.rest[23]) != Udp.UDP_PORT))
  }

  lemma ForeignIgnored(t: Top, i: Input, c0: MacRx.Channel, f: Frame)
    requires Sized(t) && ValidInput(i) && Completes(c0, t.ch, i, f) && Foreign(f)
    ensures Callable(t, i) && AfterFrame(t, i) == AfterMac(t, i)
  {
    hide AfterMac, FrameNow, Arrived, Completes, MacTx.Legal, SaneTable, MacRx.Live, Ip.Parse, MemByte;
    FrameStaged(t, i, c0, f);
    var frame := FrameNow(t, i);
    var all, h := ReadBytes(frame, 0, |f.rest|), ReadBytes(frame, 5, 8);
    assert ReadBytes(frame, 0, 20) == all[..20] && h == all[20..28];
  }

  // ---------------------------------------------------------------- TCP segments

  /** A segment for the echo port: a header of 20 to 60 bytes, up to 576 bytes of payload. */
  predicate EchoBytes(m: seq<byte>) {
    && |m| >= 20 && U16Of(m[2], m[3]) == Tcp.ECHO_PORT
    && 20 <= HeaderLength(m) <= |m| && |m| - HeaderLength(m) <= Tcp.SEND_BUF
  }

  function HeaderLength(m: seq<byte>): nat
    requires |m| >= 20
  {
    4 * (m[12] / 16)
  }

  /** The fields of a segment where RFC 9293, section 3.1, puts them. */
  predicate Fields(s: Tcp.Segment, m: seq<byte>, sender: word)
    requires EchoBytes(m)
  {
    && s.srcIp == sender && s.srcPort == U16Of(m[0], m[1]) && s.dstPort == Tcp.ECHO_PORT
    && s.seqNo == Ip.WordAt(m, 4) && s.ackNo == Ip.WordAt(m, 8) && s.flags == m[13] && s.wnd == U16Of(m[14], m[15])
    && s.payload == m[HeaderLength(m)..]
  }

  lemma SegmentParsed(ip: Ip.IpRx, frame: seq<word>, m: seq<byte>)
    requires |frame| == FRAME_BUF_WORDS && EchoBytes(m) && 20 + |m| <= 4 * FRAME_BUF_WORDS
    requires ReadBytes(frame, 5, |m|) == m && ip.totalLen == 20 + |m|
    ensures TcpFrame.LengthsFit(ip, frame) && Fields(TcpFrame.ParseSegment(ip, frame), m, ip.srcIp)
  {
    hide MemByte, TcpFrame.PeerOf, WordOf;
    var all, th := ReadBytes(frame, 5, |m|), ReadBytes(frame, 5, 20);
    assert th == all[..20];
    assert MemByte(frame, 22) == all[2] && MemByte(frame, 23) == all[3] && MemByte(frame, 32) == all[12];
    var d := m[12] / 16;
    assert ReadBytes(frame, 5 + d, |m| - 4 * d) == all[4 * d..];
  }

  /** What a SYN tells: with a well-formed option list that fills the header, its last MSS and window scale. */
  lemma OptionsParsed(frame: seq<word>, m: seq<byte>, os: seq<O.TcpOption>)
    requires |frame| == FRAME_BUF_WORDS && EchoBytes(m) && 22 + |m| <= 4 * FRAME_BUF_WORDS
    requires ReadBytes(frame, 5, |m|) == m && O.AllWellFormed(os) && m[20..HeaderLength(m)] == O.EncodeAll(os)
    ensures TcpFrame.PeerOf(frame) == O.Told(os, O.DEFAULTS)
  {
    hide MemByte, O.Parse, O.EncodeAll, O.Told;
    var d := m[12] / 16;
    var all := ReadBytes(frame, 5, |m|);
    assert MemByte(frame, 32) == all[12];
    if d > 5 {
      var n := 4 * (d - 5);
      var b := ReadBytes(frame, 10, n + 2);
      assert b[..n] == all[20..20 + n];
      assert b[0..n] == O.EncodeAll(os);
      O.ParseEncoded(b, 0, n, O.DEFAULTS, os);
    } else {
      NoOptions(os);
    }
  }

  lemma NoOptions(os: seq<O.TcpOption>)
    requires O.AllWellFormed(os) && O.EncodeAll(os) == []
    ensures O.Told(os, O.DEFAULTS) == O.DEFAULTS
  {
    if os != [] {
      assert false;
    }
  }

  /** The call that takes the last byte of a segment for the echo port hands its fields to the connection table. */
  lemma SegmentReceived(t: Top, i: Input, c0: MacRx.Channel, f: Frame, m: seq<byte>)
    requires Sized(t) && ValidInput(i) && Completes(c0, t.ch, i, f) && Carries(f, Ip.PROTO_TCP, m) && EchoBytes(m)
    ensures Callable(t, i) && Received(t, i).Some? && |f.rest| >= 20
    ensures Fields(Received(t, i).value, m, Sender(f))
  {
    hide FrameNow, Arrived, Completes, MacTx.Legal, SaneTable, MacRx.Live, Ip.Parse, TcpFrame.LengthsFit,
         TcpFrame.ParseSegment, Fields, EchoBytes, MemByte;
    HeaderStaged(t, i, c0, f, Ip.PROTO_TCP, m);
    SegmentParsed(Ip.Parse(f.rest[..20]), FrameNow(t, i), m);
  }

  /** The register is free, and the frame in flight is not one from the UDP region. */
  ghost predicate FreeForTcp(t: Top, i: Input)
    requires Sized(t)
  {
    var a := AfterMac(t, i);
    !a.req.request && (a.mac.st == MacTx.Idle || a.mac.wbase != TX_UDP_BASE)
  }

  /** The segment ends the established connection in slot k, or opens one there: slot k is the first free one and the
      sender has none. */
  predicate Answerable(tcp: Tcp.State, m: seq<byte>, sender: word, k: nat) {
    && |m| >= 20 && |tcp.conns| == Tcp.MAX_CONN && k < Tcp.MAX_CONN
    && var (c, port) := (tcp.conns[k], U16Of(m[0], m[1]));
       || (Tcp.Matches(c, port, sender) && c.st == Tcp.Established && Tcp.HasFin(m[13]))
       || (&& c.st == Tcp.Free && (forall j :: 0 <= j < k ==> tcp.conns[j].st != Tcp.Free)
           && TcpTable.NoMatch(tcp.conns, port, sender, 0, Tcp.MAX_CONN) && Tcp.HasSyn(m[13]) && !Tcp.HasAck(m[13]))
  }

  lemma AnswerableHandled(tcp: Tcp.State, tops: seq<nat>, s: Tcp.Segment, m: seq<byte>, sender: word, k: nat)
    requires TcpTable.Inv(tcp, tops) && EchoBytes(m) && Fields(s, m, sender) && Answerable(tcp, m, sender, k)
    ensures TcpTable.Handled(tcp, s) == Some(k) && TcpLife.Replies(tcp.conns[k], s)
  {
    hide TcpTable.Handled, TcpTable.Good, TcpTable.Unique, Tcp.HasSyn, Tcp.HasAck, Tcp.HasFin;
    TcpLife.HandledIff(tcp, s, tops, k);
  }

  /** The bytes of a reply: from the echo port to the sender, verifying under the pseudo-header, without payload. */
  predicate ReplySegment(p: seq<byte>, m: seq<byte>, peer: word, flags: byte, seqNo: word, ackNo: word) {
    && |m| >= 2 && |p| >= 40
    && var s := p[20..];
       && TcpFrame.Packet(p, peer, s) && Checksum.Check(Checksum.TcpSum(BOARD_IP, peer, s)) == 0
       && U16Of(s[0], s[1]) == Tcp.ECHO_PORT && U16Of(s[2], s[3]) == U16Of(m[0], m[1])
       && Ip.WordAt(s, 4) == seqNo && Ip.WordAt(s, 8) == ackNo && s[13] == flags && |s| == 4 * (s[12] / 16)
  }

  lemma ReplyBytes(o: Tcp.Out, p: seq<byte>, m: seq<byte>)
    requires TcpFrame.Sendable(o.flags, o.payload) && o.payload == [] && |m| >= 2
    requires o.conn.peerPort == U16Of(m[0], m[1])
    requires TcpFrame.Packet(p, o.conn.peerIp, TcpFrame.SegmentBytes(o.conn, o.flags, o.payload))
    ensures ReplySegment(p, m, o.conn.peerIp, o.flags, o.conn.sndSeq, o.conn.peerSeq)
  {
    hide TcpFrame.SegmentBytes, Checksum.TcpSum, Checksum.Check, Ip.Accepts, Ip.Parse;
    TcpFrame.SegmentReadsBack(o.conn, o.flags, o.payload);
  }

  /** A segment that opens a connection or ends an established one is answered by exactly one frame, if the register is
      free: a SYN by a SYN-ACK from the initial number, a FIN by a FIN-ACK from the connection's next number, each
      acknowledging what came up to and including it. */
  lemma SegmentAnswered(t: Top, i: Input, pacing: nat, tops: seq<nat>, c0: MacRx.Channel, f: Frame, m: seq<byte>,
                        k: nat)
    requires Inv(t) && Sized(t) && ValidInput(i) && FreeForTcp(t, i) && TcpTable.Inv(t.tcp, tops) && k < Tcp.MAX_CONN
    requires Completes(c0, t.ch, i, f) && Carries(f, Ip.PROTO_TCP, m) && EchoBytes(m)
    requires |f.rest| >= 20 && Answerable(t.tcp, m, Sender(f), k)
    ensures Callable(t, i) && Gated(t, i) && |Asked(t, i, pacing)| == 1
    ensures var (j, c) := (Asked(t, i, pacing)[0], t.tcp.conns[k]);
      ReplySegment(j.payload, m, Sender(f), if c.st == Tcp.Free then Tcp.SYN + Tcp.ACK else Tcp.FIN + Tcp.ACK,
                   if c.st == Tcp.Free then Tcp.ISN else c.sndSeq,
                   Tcp.Plus(Ip.WordAt(m, 4), 1 + if c.st == Tcp.Free then 0 else |m| - HeaderLength(m)))
  {
    hide Step, AfterMac, Inv, Callable, Gated, Segment, TcpFrame.SegmentBytes, TcpFrame.Packet, TcpTable.Inv, EchoBytes,
         Completes, Carries, Sized, TcpTable.Handled, Received, Asked, AnsweredNow, ReplySegment, Sender, Answerable;
    SegmentReceived(t, i, c0, f, m);
    var s := Received(t, i).value;
    AnswerableHandled(t.tcp, tops, s, m, Sender(f), k);
    ReplyHandedOver(t, i, pacing, tops, k);
    var o := Segment(t, i, pacing).value;
    SegmentIsAsked(t, i, pacing);
    LongEnough(m);
    ReplyBytes(o, Asked(t, i, pacing)[0].payload, m);
  }

  lemma LongEnough(m: seq<byte>)
    requires EchoBytes(m)
    ensures |m| >= 20 && HeaderLength(m) <= |m|
  {
  }

  lemma ReplyHandedOver(t: Top, i: Input, pacing: nat, tops: seq<nat>, k: nat)
    requires Sized(t) && Callable(t, i) && FreeForTcp(t, i) && TcpTable.Inv(t.tcp, tops) && k < Tcp.MAX_CONN
    requires Received(t, i).Some?
    requires TcpTable.Handled(t.tcp, Received(t, i).value) == Some(k)
    requires TcpLife.Replies(t.tcp.conns[k], Received(t, i).value)
    ensures Gated(t, i) && Segment(t, i, pacing).Some?
    ensures var (o, s, c) := (Segment(t, i, pacing).value, Received(t, i).value, t.tcp.conns[k]);
      && o.payload == [] && o.conn.peerIp == s.srcIp && o.conn.peerPort == s.srcPort
      && o.flags == (if c.st == Tcp.Free then Tcp.SYN + Tcp.ACK else Tcp.FIN + Tcp.ACK)
      && o.conn.sndSeq == (if c.st == Tcp.Free then Tcp.ISN else c.sndSeq)
      && o.conn.peerSeq == Tcp.Plus(s.seqNo, if c.st == Tcp.Free then 1 else |s.payload| + 1)
  {
    hide FrameNow, Arrived, MacTx.TxStep, MacTx.Legal, SaneTable, MacRx.Live, MacRx.Pass, HeaderOfFrame,
         TcpFrame.LengthsFit, TcpFrame.ParseSegment, TcpTable.Inv, TcpTable.Handled, Tcp.Receive, Maintains,
         AtMaintenance;
    var ip := HeaderOfFrame(FrameNow(t, i));
    TcpFrame.ParsedValid(ip, FrameNow(t, i));
    TcpLife.RepliesExactly(t.tcp, Received(t, i).value, tops);
  }

  /** The same on the wire, once the calls due have been made. */
  lemma SegmentAnsweredOnLine(t: Top, i: Input, pacing: nat, tops: seq<nat>, c0: MacRx.Channel, f: Frame, m: seq<byte>,
                              k: nat, ins: seq<Input>)
    requires Inv(t) && Sized(t) && ValidInput(i) && FreeForTcp(t, i) && TcpTable.Inv(t.tcp, tops) && k < Tcp.MAX_CONN
    requires Completes(c0, t.ch, i, f) && Carries(f, Ip.PROTO_TCP, m) && EchoBytes(m)
    requires |f.rest| >= 20 && Answerable(t.tcp, m, Sender(f), k)
    requires Callable(t, i) ==> GatedRun(Step(t, i, pacing), ins, pacing) && |ins| >= FLUSH_CALLS
    ensures Callable(t, i) && |Asked(t, i, pacing)| == 1
    ensures var (j, c) := (Asked(t, i, pacing)[0], t.tcp.conns[k]);
      && ReplySegment(j.payload, m, Sender(f), if c.st == Tcp.Free then Tcp.SYN + Tcp.ACK else Tcp.FIN + Tcp.ACK,
                      if c.st == Tcp.Free then Tcp.ISN else c.sndSeq,
                      Tcp.Plus(Ip.WordAt(m, 4), 1 + if c.st == Tcp.Free then 0 else |m| - HeaderLength(m)))
      && Rest(t) + MacTx.Wire(j.req, j.payload) <= Written(t) + Line(Step(t, i, pacing), ins, pacing)
  {
    hide Sized, Inv, Callable, Gated, FreeForTcp, Completes, Carries, GatedRun, Step, Asked, TcpTable.Inv, ReplySegment,
         Answerable, EchoBytes, Sender;
    SegmentAnswered(t, i, pacing, tops, c0, f, m, k);
    AskedOnLine(t, i, pacing, ins);
  }
}
