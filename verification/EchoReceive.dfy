/** From received bytes to the frame asked for: the call that takes the last byte of a frame sees its bytes, and an echo
    request is answered on the wire. */
module EchoReceive {
  import opened Bytes
  import opened Layout
  import opened Arp
  import opened Store
  import opened Echo
  import opened EchoIntegrity
  import opened EchoRuns
  import opened EchoLive
  import opened MacFrames
  import Checksum
  import D = Dhcp
  import Icmp
  import Ip
  import MacRx
  import MacTx
  import MacWire
  import Tcp
  import TcpFrame
  import Udp

  // ---------------------------------------------------------------- the last byte

  /** All beats of a frame but the last one. */
  function AllButLast(f: Frame): seq<Beat> {
    MacTx.Beats(WireBytes(f))[..|WireBytes(f)| - 1]
  }

  function LastBeat(f: Frame): Beat
    requires WireBytes(f) != []
  {
    Beat(WireBytes(f)[|WireBytes(f)| - 1], true)
  }

  /** The channel was ready before f and has read all of it but the last byte, which the call receives. */
  ghost predicate Completes(c0: MacRx.Channel, ch: MacRx.Channel, i: Input, f: Frame) {
    && Ready(c0) && WellFormed(f) && MacRx.ForUs(f.dst)
    && ch == Feed(c0, AllButLast(f)).0 && i.beat == Some(LastBeat(f))
  }

  lemma LastByte(c0: MacRx.Channel, ch: MacRx.Channel, i: Input, f: Frame)
    requires Completes(c0, ch, i, f)
    ensures MacRx.Live(ch)
    ensures MacRx.Pass(ch, true, i.beat) == (MacFrames.After(c0, Headed(c0.rx, f), f.rest), Some(Report(f)))
    ensures Ready(MacRx.Pass(ch, true, i.beat).0)
  {
    hide WireBytes, MacRx.Pass, Report, Headed, MacRx.Live;
    var b := MacTx.Beats(WireBytes(f));
    FrameDelivered(c0, f);
    assert b == AllButLast(f) + [LastBeat(f)];
    FeedAppend(c0, AllButLast(f), [LastBeat(f)]);
    OneBeat(ch, LastBeat(f));
    var y := Feed(ch, [LastBeat(f)]).1;
    assert [] + y == y && y == [Report(f)];
  }

  lemma OneBeat(ch: MacRx.Channel, b: Beat)
    requires MacRx.Live(ch)
    ensures var (c, a) := MacRx.Pass(ch, true, Some(b)); Feed(ch, [b]) == (c, if a.Some? then [a.value] else [])
  {
    hide MacRx.Pass, MacRx.Live;
    var (c, a) := MacRx.Pass(ch, true, Some(b));
    assert [b][1..] == [] && Feed(c, []) == (c, []);
    assert forall s: seq<MacRx.Arrival> {:trigger s + []} :: s + [] == s;
  }

  /** Up to 1600 bytes behind the header are staged. */
  predicate Stageable(f: Frame) { |f.rest| <= 4 * FRAME_BUF_WORDS }

  lemma FrameStaged(t: Top, i: Input, c0: MacRx.Channel, f: Frame)
    requires Sized(t) && Completes(c0, t.ch, i, f) && Stageable(f)
    ensures Arrived(t, i) == Some(f.ethertype)
    ensures ReadBytes(FrameNow(t, i), 0, |f.rest|) == f.rest
  {
    hide WireBytes, MacRx.Pass, Headed, Ready, MacRx.Live, Sized, Feed, Pack;
    LastByte(c0, t.ch, i, f);
    PackStaged(f.rest, FrameNow(t, i));
  }

  lemma PackStaged(p: seq<byte>, frame: seq<word>)
    requires |frame| == FRAME_BUF_WORDS && |p| <= 4 * FRAME_BUF_WORDS && Pack(p) <= frame
    ensures ReadBytes(frame, 0, |p|) == p
  {
    hide Pack, MemByte;
    UnpackPack(p);
    var w := Pack(p);
    forall k | 0 <= k < |p| ensures MemByte(frame, k) == p[k] {
      assert Unpack(w)[..|p|][k] == p[k];
      SameByte(w, frame, k);
    }
  }

  lemma SameByte(w: seq<word>, m: seq<word>, k: nat)
    requires w <= m && k < 4 * |w|
    ensures MemByte(w, k) == MemByte(m, k)
  {
    hide ByteOf;
  }

  /** The frame carries an IP datagram for the board with message m. */
  ghost predicate Carries(f: Frame, proto: byte, m: seq<byte>) {
    && f.ethertype == ETHERTYPE_IPV4 && Stageable(f) && 20 + |m| <= |f.rest| && f.rest[20..20 + |m|] == m
    && var ip := Ip.Parse(f.rest[..20]);
       ip.valid && ip.protocol == proto && ip.totalLen == 20 + |m|
  }

  function Sender(f: Frame): word
    requires |f.rest| >= 20
  {
    Ip.Parse(f.rest[..20]).srcIp
  }

  lemma HeaderStaged(t: Top, i: Input, c0: MacRx.Channel, f: Frame, proto: byte, m: seq<byte>)
    requires Sized(t) && Completes(c0, t.ch, i, f) && Carries(f, proto, m)
    ensures Arrived(t, i) == Some(ETHERTYPE_IPV4) && HeaderOfFrame(FrameNow(t, i)) == Ip.Parse(f.rest[..20])
    ensures ReadBytes(FrameNow(t, i), 5, |m|) == m
  {
    hide MemByte, Ip.Parse, Sized, Completes, Arrived, FrameNow;
    FrameStaged(t, i, c0, f);
    var frame := FrameNow(t, i);
    var all := ReadBytes(frame, 0, |f.rest|);
    assert ReadBytes(frame, 0, 20) == all[..20];
    assert ReadBytes(frame, 5, |m|) == all[20..20 + |m|];
  }

  // ---------------------------------------------------------------- ping

  predicate EchoRequest(m: seq<byte>) { 4 <= |m| <= 236 && m[0] == Icmp.ECHO_REQUEST && m[1] == 0 }

  /** The bytes of a reply to m: a header the receive check accepts, from the board to the sender, then m with only type
      and checksum changed, verifying. */
  predicate Reply(p: seq<byte>, m: seq<byte>, sender: word) {
    && 4 <= |m| <= 236 && |p| == 20 + |m| && Ip.Accepts(p[..20])
    && Ip.Parse(p[..20]).(valid := true) == Ip.IpRx(true, Ip.PROTO_ICMP, 20 + |m|, 0, 128, BOARD_IP, sender)
    && p[20] == Icmp.ECHO_REPLY && p[21] == m[1] && p[24..] == m[4..]
    && Checksum.Check(Checksum.Sum16(p[20..])) == 0
  }

  lemma RequestAnswers(frame: seq<word>, m: seq<byte>)
    requires |frame| == FRAME_BUF_WORDS && EchoRequest(m) && ReadBytes(frame, 5, |m|) == m
    ensures Icmp.Answers(frame)
  {
    hide ByteOf;
    MemByteAt(frame, 5, 0);
    MemByteAt(frame, 5, 1);
    assert m[0] == MemByte(frame, 20) && m[1] == MemByte(frame, 21);
  }

  lemma ReplyRead(mem: seq<word>, frame: seq<word>, ip: Ip.IpRx, m: seq<byte>)
    requires |mem| == BUFFER_DEPTH && |frame| == FRAME_BUF_WORDS && EchoRequest(m) && ip.totalLen == 20 + |m|
    requires ReadBytes(frame, 5, |m|) == m && Icmp.Answers(frame)
    ensures Reply(ReadBytes(Icmp.ReplyBuffer(mem, frame, ip), TX_SCRATCH_BASE, 20 + |m|), m, ip.srcIp)
  {
    hide MemByte, Icmp.ReplyBuffer, Ip.Parse, Ip.Accepts, Checksum.Check, Checksum.Sum16, Icmp.Answers;
    Icmp.PingReply(mem, frame, ip);
    var out := Icmp.ReplyBuffer(mem, frame, ip);
    var p, h := ReadBytes(out, TX_SCRATCH_BASE, 20 + |m|), ReadBytes(out, TX_SCRATCH_BASE, 20);
    var r := ReadBytes(out, TX_SCRATCH_BASE + 5, |m|);
    assert p[..20] == h && p[20..] == r;
    assert p[24..] == r[4..];
  }

  /** The request register is free, and the frame in flight is not one from the scratch region. */
  ghost predicate Free(t: Top, i: Input)
    requires Sized(t)
  {
    var a := AfterMac(t, i);
    !a.req.request && (a.mac.st == MacTx.Idle || a.mac.wbase != TX_SCRATCH_BASE)
  }

  lemma PingClear(t: Top, i: Input, c0: MacRx.Channel, f: Frame, m: seq<byte>)
    requires Inv(t) && ValidInput(i) && Sized(t) && Free(t, i)
    requires Completes(c0, t.ch, i, f) && Carries(f, Ip.PROTO_ICMP, m) && EchoRequest(m)
    ensures Callable(t, i) && Gated(t, i) && Received(t, i) == None
    ensures var ip, a, g := HeaderOfFrame(FrameNow(t, i)), AfterMac(t, i), AfterFrame(t, i);
      && ip == Ip.Parse(f.rest[..20]) && 20 <= ip.totalLen <= 20 + Icmp.MAX_MESSAGE
      && g.buffer == Icmp.ReplyBuffer(a.buffer, FrameNow(t, i), ip)
      && g.req == Icmp.ReplyReq(a.req, Answer(a.arp, ip.srcIp), ip)
      && Reply(ReadBytes(g.buffer, TX_SCRATCH_BASE, 20 + |m|), m, ip.srcIp)
  {
    hide AfterMac, FrameNow, Arrived, Ip.Parse, Icmp.ReplyBuffer, Completes, Reply, EchoRequest, Icmp.Answers, Answer,
         AfterLookup, MacTx.Legal, SaneTable, MacRx.Live, Inv, MemByte;
    HeaderStaged(t, i, c0, f, Ip.PROTO_ICMP, m);
    RequestAnswers(FrameNow(t, i), m);
    RequestLength(m);
    ReplyRead(AfterMac(t, i).buffer, FrameNow(t, i), Ip.Parse(f.rest[..20]), m);
  }

  lemma RequestLength(m: seq<byte>)
    requires EchoRequest(m)
    ensures 4 <= |m| <= 236
  {
  }

  /** The call that completes an echo request asks for exactly one frame, the reply, if the register is free. */
  lemma PingAsked(t: Top, i: Input, pacing: nat, c0: MacRx.Channel, f: Frame, m: seq<byte>)
    requires Inv(t) && ValidInput(i) && Sized(t) && Free(t, i)
    requires Completes(c0, t.ch, i, f) && Carries(f, Ip.PROTO_ICMP, m) && EchoRequest(m)
    ensures Callable(t, i) && Gated(t, i) && |Asked(t, i, pacing)| == 1
    ensures var j := Asked(t, i, pacing)[0];
      && Reply(j.payload, m, Sender(f)) && j.segment == None && j.req.ethertype == ETHERTYPE_IPV4
      && j.req.dst == match Answer(t.arp, Sender(f)) case Some(d) => d case None => BROADCAST_MAC
  {
    hide AfterFrame, FrameNow, Arrived, Ip.Parse, Icmp.ReplyBuffer, Completes, Reply, EchoRequest, Answer, Carries,
         MacTx.Legal, SaneTable, MacRx.Live, Inv, MemByte, Gated, Busy, MacTx.TxStep, MacRx.Pass;
    PingClear(t, i, c0, f, m);
    AnswerStands(t, i, pacing);
    CarriesLength(f, Ip.PROTO_ICMP, m);
  }

  lemma CarriesLength(f: Frame, proto: byte, m: seq<byte>)
    requires Carries(f, proto, m)
    ensures |f.rest| >= 20 && Ip.Parse(f.rest[..20]).totalLen == 20 + |m|
  {
  }

  /** Ping, end to end: a well-formed frame for the board with an echo request of 4 to 236 bytes, whose last byte comes
      when the request register is free and nothing is being sent from the scratch region, is answered; and once the
      calls due have been made the wire has carried the reply, whole, right behind what was owed before. */
  lemma PingOnLine(t: Top, i: Input, pacing: nat, c0: MacRx.Channel, f: Frame, m: seq<byte>, ins: seq<Input>)
    requires Inv(t) && ValidInput(i) && Sized(t) && Free(t, i)
    requires Completes(c0, t.ch, i, f) && Carries(f, Ip.PROTO_ICMP, m) && EchoRequest(m)
    requires Callable(t, i) ==> GatedRun(Step(t, i, pacing), ins, pacing) && |ins| >= FLUSH_CALLS
    ensures Callable(t, i) && |Asked(t, i, pacing)| == 1
    ensures var j := Asked(t, i, pacing)[0];
      && Reply(j.payload, m, Sender(f))
      && Rest(t) + MacTx.Wire(j.req, j.payload) <= Written(t) + Line(Step(t, i, pacing), ins, pacing)
  {
    hide Sized, Inv, Callable, Gated, Free, Carries, Completes, EchoRequest, Reply, GatedRun, Step, Asked;
    PingAsked(t, i, pacing, c0, f, m);
    AskedOnLine(t, i, pacing, ins);
  }

  /** A frame asked for is on the wire, behind what was owed before, once the calls due have been made. */
  lemma AskedOnLine(t: Top, i: Input, pacing: nat, ins: seq<Input>)
    requires Inv(t) && Callable(t, i) && Gated(t, i) && |Asked(t, i, pacing)| == 1
    requires GatedRun(Step(t, i, pacing), ins, pacing) && |ins| >= FLUSH_CALLS
    ensures var j := Asked(t, i, pacing)[0];
      Rest(t) + MacTx.Wire(j.req, j.payload) <= Written(t) + Line(Step(t, i, pacing), ins, pacing)
  {
    hide Sized, Inv, Gated, Step, Asked, Rest, Written, Line, MacTx.Wire, GatedRun, Due, Frames;
    CallOwes(t, i, pacing);
    var u, j := Step(t, i, pacing), Asked(t, i, pacing)[0];
    OneFrame(Asked(t, i, pacing));
    SizedNow(u);
    DueBound(u);
    AllOwed(u);
    DebtFirst(u, ins, pacing, Rest(u));
    assert Rest(t) + MacTx.Wire(j.req, j.payload) == Written(t) + Rest(u);
  }

  lemma OneFrame(jobs: seq<Job>)
    requires |jobs| == 1
    ensures Frames(jobs) == MacTx.Wire(jobs[0].req, jobs[0].payload)
  {
    hide MacTx.Wire;
    assert jobs[1..] == [];
  }

  // ---------------------------------------------------------------- UDP echo

  /** A UDP header for the echo port that announces its own length, and up to 996 bytes behind it. */
  predicate Datagram(m: seq<byte>) {
    8 <= |m| <= MAX_DATAGRAM && U16Of(m[2], m[3]) == Udp.UDP_PORT && U16Of(m[4], m[5]) == |m|
  }

  /** The bytes of its echo: a datagram from the board to the address and port it came from, with its bytes. */
  predicate Echoed(p: seq<byte>, m: seq<byte>, sender: word) {
    && |m| >= 8 && |p| == 20 + |m|
    && Udp.Datagram(p, sender, Ip.Parse(p[..20]).id, U16Of(m[0], m[1]), m[8..])
  }

  lemma DatagramParsed(frame: seq<word>, m: seq<byte>)
    requires |frame| == FRAME_BUF_WORDS && Datagram(m) && ReadBytes(frame, 5, |m|) == m
    ensures Udp.ParseUdp(frame) == Udp.UdpRx(true, U16Of(m[0], m[1]), Udp.UDP_PORT, |m|, |m| - 8)
    ensures ReadBytes(frame, 7, |m| - 8) == m[8..]
  {
    hide MemByte;
    var h, all, tail := ReadBytes(frame, 5, 8), ReadBytes(frame, 5, |m|), ReadBytes(frame, 7, |m| - 8);
    assert h == all[..8] && tail == all[8..];
  }

  lemma CaptureRead(mem: seq<word>, frame: seq<word>, at: nat, n: nat)
    requires |frame| == FRAME_BUF_WORDS && 7 + (n + 3) / 4 <= FRAME_BUF_WORDS && at + (n + 3) / 4 <= |mem|
    ensures ReadBytes(Stored(mem, at, frame[7..7 + (n + 3) / 4]), at, n) == ReadBytes(frame, 7, n)
  {
    hide ByteOf;
    var out := Stored(mem, at, frame[7..7 + (n + 3) / 4]);
    var a, b := ReadBytes(out, at, n), ReadBytes(frame, 7, n);
    forall k | 0 <= k < n ensures a[k] == b[k] {
      assert out[at + k / 4] == frame[7 + k / 4];
    }
  }

  /** The MAC is idle and the DHCP client has nothing to send in this call. */
  ghost predicate Quiet(t: Top)
    requires Sized(t)
  {
    !Busy(t) && D.TxStep(Prologue(t).client, Prologue(t).start).1 == None
  }

  lemma DatagramEffect(tcp: Tcp.State, frame: seq<word>, m: seq<byte>)
    requires |frame| == FRAME_BUF_WORDS && SaneTable(tcp)
    requires Datagram(m) && ReadBytes(frame, 5, |m|) == m
    requires var ip := HeaderOfFrame(frame); ip.valid && ip.protocol == Ip.PROTO_UDP
    ensures Manageable(ETHERTYPE_IPV4, frame) && EffectOf(tcp, ETHERTYPE_IPV4, frame) == Capture
  {
    hide HeaderOfFrame, ReadBytes, Datagram, Udp.ParseUdp, SaneTable;
    DatagramParsed(frame, m);
    DatagramLength(m);
  }

  lemma UdpTaken(t: Top, i: Input, c0: MacRx.Channel, f: Frame, m: seq<byte>)
    requires Inv(t) && ValidInput(i) && Sized(t) && Quiet(t)
    requires Completes(c0, t.ch, i, f) && Carries(f, Ip.PROTO_UDP, m) && Datagram(m)
    ensures Callable(t, i) && Gated(t, i) && Received(t, i) == None
  {
    hide AfterMac, FrameNow, Arrived, Ip.Parse, Completes, Datagram, Busy, Inv, Manageable, EffectOf, D.TxStep, Orderly,
         FirstPhase, ReadBytes, HeaderOfFrame, MacTx.Legal, MacRx.Live, SaneTable, TcpFrame.ParseSegment;
    HeaderStaged(t, i, c0, f, Ip.PROTO_UDP, m);
    DatagramEffect(AfterMac(t, i).tcp, FrameNow(t, i), m);
    AfterMacOwes(t, i);
  }

  lemma UdpCaptured(t: Top, i: Input, c0: MacRx.Channel, f: Frame, m: seq<byte>)
    requires Inv(t) && Callable(t, i) && Quiet(t)
    requires Completes(c0, t.ch, i, f) && Carries(f, Ip.PROTO_UDP, m) && Datagram(m)
    ensures var g := AfterFrame(t, i);
      && ReadBytes(g.buffer, TX_UDP_BASE + 7, |m| - 8) == m[8..] && !g.req.request && g.arp == t.arp
      && g.pending == Some(Udp.Pending(|m|, 20 + |m|, U16Of(m[0], m[1]), Sender(f)))
      && D.TxStep(g.client, g.start).1 == None
  {
    hide AfterMac, FrameNow, Arrived, Ip.Parse, Completes, Datagram, MacTx.Legal, SaneTable, MacRx.Live, Inv, MemByte,
         Udp.ParseUdp, Dispatch, D.TxStep, Busy, Orderly, FirstPhase, Manageable, HeaderOfFrame, ReadBytes;
    HeaderStaged(t, i, c0, f, Ip.PROTO_UDP, m);
    DatagramLength(m);
    AfterMacOwes(t, i);
    SameClient(t, i);
    SameCache(t, i);
    OnDatagram(AfterMac(t, i), FrameNow(t, i), m, i.junk1);
  }

  /** Its dispatch: the payload is captured and the datagram noted. */
  lemma OnDatagram(t: Top, frame: seq<word>, m: seq<byte>, junk: seq<byte>)
    requires Sized(t) && |frame| == FRAME_BUF_WORDS && |junk| == TcpFrame.SCRATCH && Manageable(ETHERTYPE_IPV4, frame)
    requires Datagram(m) && ReadBytes(frame, 5, |m|) == m
    requires var ip := HeaderOfFrame(frame); ip.valid && ip.protocol == Ip.PROTO_UDP && ip.totalLen == 20 + |m|
    ensures var g := Dispatch(t, ETHERTYPE_IPV4, frame, junk);
      && ReadBytes(g.buffer, TX_UDP_BASE + 7, |m| - 8) == m[8..] && g.req == t.req && g.arp == t.arp
      && g.client == t.client && g.start == t.start
      && g.pending == Some(Udp.Pending(|m|, 20 + |m|, U16Of(m[0], m[1]), HeaderOfFrame(frame).srcIp))
  {
    hide Datagram, MacTx.Legal, SaneTable, MacRx.Live, MemByte, Udp.ParseUdp, Stored, HeaderOfFrame, ReadBytes,
         Manageable;
    DatagramParsed(frame, m);
    DatagramLength(m);
    CaptureRead(t.buffer, frame, TX_UDP_BASE + 7, |m| - 8);
  }

  lemma DatagramLength(m: seq<byte>)
    requires Datagram(m)
    ensures 8 <= |m| <= MAX_DATAGRAM
  {
  }

  lemma SameCache(t: Top, i: Input)
    requires Sized(t)
    ensures AfterMac(t, i).arp == t.arp
  {
    hide MacRx.Pass, MacTx.TxStep, Sized;
  }

  lemma SameClient(t: Top, i: Input)
    requires Sized(t)
    ensures AfterMac(t, i).client == Prologue(t).client && AfterMac(t, i).start == Prologue(t).start
  {
    hide Prologue, MacRx.Pass, MacTx.TxStep, Sized;
  }

  /** The sender's turn on a captured datagram. */
  lemma EchoBuilt(g: Top, pacing: nat, junk: seq<byte>, m: seq<byte>, port: u16, ip: word, busy: bool)
    requires Sized(g) && |junk| == TcpFrame.SCRATCH && !busy && !g.req.request && D.TxStep(g.client, g.start).1 == None
    requires 8 <= |m| <= MAX_DATAGRAM && g.pending == Some(Udp.Pending(|m|, 20 + |m|, port, ip))
    requires ReadBytes(g.buffer, TX_UDP_BASE + 7, |m| - 8) == m[8..] && port == U16Of(m[0], m[1])
    ensures var v := UdpTurn(DhcpTurn(g), busy, pacing);
      && v.req.request && v.req.addr == TX_UDP_BASE && v.req.len == 20 + |m| && v.req.ethertype == ETHERTYPE_IPV4
      && v.req.dst == (match Answer(g.arp, ip) case Some(d) => d case None => BROADCAST_MAC)
      && Echoed(ReadBytes(v.buffer, TX_UDP_BASE, 20 + |m|), m, ip)
  {
    hide SaneTable, MacRx.Live, MacTx.Legal, D.TxStep, Udp.JobBuffer, Answer, AfterLookup, Ip.Accepts, Ip.Parse,
         MemByte;
    var (u, job) := Udp.Choose(g.udp, g.pending, pacing);
    Udp.EchoCarries(g.buffer, u, job.value, Answer(g.arp, ip));
  }

  /** The call that completes a datagram for the echo port asks for exactly one frame, its echo, if the MAC is idle and
      the DHCP client silent. */
  lemma UdpAsked(t: Top, i: Input, pacing: nat, c0: MacRx.Channel, f: Frame, m: seq<byte>)
    requires Inv(t) && ValidInput(i) && Sized(t) && Quiet(t)
    requires Completes(c0, t.ch, i, f) && Carries(f, Ip.PROTO_UDP, m) && Datagram(m)
    ensures Callable(t, i) && Gated(t, i) && |Asked(t, i, pacing)| == 1
    ensures var j := Asked(t, i, pacing)[0];
      && Echoed(j.payload, m, Sender(f)) && j.segment == None && j.req.ethertype == ETHERTYPE_IPV4
      && j.req.dst == match Answer(t.arp, Sender(f)) case Some(d) => d case None => BROADCAST_MAC
  {
    hide AfterFrame, Ip.Parse, Completes, Echoed, Datagram, Carries, MacTx.Legal, SaneTable, MacRx.Live, Inv, MemByte,
         Quiet, Gated, Busy, D.TxStep, Orderly, FirstPhase, AfterMac, Step, Segment, AtMaintenance, Sized, Callable,
         Received, UdpTurn, DhcpTurn, Answer, ReadBytes, Rest, Written, Timed;
    QuietIdle(t);
    UdpTaken(t, i, c0, f, m);
    UdpCaptured(t, i, c0, f, m);
    DatagramLength(m);
    CarriesLength(f, Ip.PROTO_UDP, m);
    AfterMacOwes(t, i);
    SenderBuilds(t, i, pacing);
    EchoBuilt(AfterFrame(t, i), pacing, i.junk2, m, U16Of(m[0], m[1]), Sender(f), Busy(t));
  }

  lemma QuietIdle(t: Top)
    requires Sized(t) && Quiet(t)
    ensures !Busy(t)
  {
  }

  /** What the UDP sender asks for stays asked for. */
  lemma SenderBuilds(t: Top, i: Input, pacing: nat)
    requires Callable(t, i)
    ensures AtMaintenance(t, i, pacing) == UdpTurn(DhcpTurn(AfterFrame(t, i)), Busy(t), pacing)
    ensures AtMaintenance(t, i, pacing).req.request ==> Step(t, i, pacing) == AtMaintenance(t, i, pacing)
    ensures AtMaintenance(t, i, pacing).req.request && Received(t, i) == None ==> Segment(t, i, pacing) == None
  {
    hide AfterFrame, Received, Busy, Sized, UdpTurn, DhcpTurn;
  }

  /** UDP echo, end to end: the wire has carried the echo, whole, once the calls due have been made. */
  lemma UdpOnLine(t: Top, i: Input, pacing: nat, c0: MacRx.Channel, f: Frame, m: seq<byte>, ins: seq<Input>)
    requires Inv(t) && ValidInput(i) && Sized(t) && Quiet(t)
    requires Completes(c0, t.ch, i, f) && Carries(f, Ip.PROTO_UDP, m) && Datagram(m)
    requires Callable(t, i) ==> GatedRun(Step(t, i, pacing), ins, pacing) && |ins| >= FLUSH_CALLS
    ensures Callable(t, i) && |Asked(t, i, pacing)| == 1
    ensures var j := Asked(t, i, pacing)[0];
      && Echoed(j.payload, m, Sender(f))
      && Rest(t) + MacTx.Wire(j.req, j.payload) <= Written(t) + Line(Step(t, i, pacing), ins, pacing)
  {
    hide Sized, Inv, Callable, Gated, Quiet, Carries, Completes, Datagram, Echoed, GatedRun, Step, Asked;
    UdpAsked(t, i, pacing, c0, f, m);
    AskedOnLine(t, i, pacing, ins);
  }
}
