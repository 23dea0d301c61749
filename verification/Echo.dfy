/** One call of udp_echo as a function: receiver, printer, the layers, and the gates that decide who may build the
    next frame in the shared buffer. */
module Echo {
  import opened Bytes
  import opened Layout
  import opened Arp
  import opened Store
  import opened Udp
  import D = Dhcp
  import Icmp
  import Igmp
  import Ip
  import MacRx
  import MacTx
  import MacWire
  import Tcp
  import TcpFrame
  import TcpTable

  /** Calls before the DHCP client is started. */
  const DHCP_DELAY: nat := 100_000_000

  /** The static state of udp_echo and of the layers it calls. */
  datatype Top = Top(ch: MacRx.Channel, mac: MacTx.Tx, req: TxReq, buffer: seq<word>,
                     client: D.Client, start: bool, delay: word,
                     udp: UdpTx, pending: Option<Pending>, tcp: Tcp.State, arp: Cache, ready: bool)

  /** The outside of one call: a received byte or none, and what the two segment arrays on the stack happen to hold. */
  datatype Input = Input(beat: Option<Beat>, junk1: seq<byte>, junk2: seq<byte>)

  predicate ValidInput(i: Input) { |i.junk1| == TcpFrame.SCRATCH && |i.junk2| == TcpFrame.SCRATCH }

  /** Connection tables as the runs of TcpTable reach them. */
  ghost predicate SaneTable(t: Tcp.State) { exists tops :: TcpTable.Inv(t, tops) }

  /** States the call is defined on. */
  ghost predicate Sized(t: Top) {
    && MacRx.Live(t.ch) && |t.buffer| == BUFFER_DEPTH
    && MacTx.Legal(t.mac, BUFFER_DEPTH) && MacTx.LegalReq(t.req, BUFFER_DEPTH)
    && SaneTable(t.tcp)
    && (t.pending.Some? ==> 8 <= t.pending.value.length <= MAX_DATAGRAM)
  }

  /** The longest datagram the transmit region holds behind an IP header. */
  const MAX_DATAGRAM: u16 := 1004

  // ---------------------------------------------------------------- before the layers

  /** The one-time initialisation. */
  ghost function Greeted(t: Top): (r: Top)
    requires Sized(t)
    ensures Sized(r)
  {
    if t.ready then t else t.(buffer := Stored(t.buffer, TX_UDP_BASE + 7, HELLO_WORDS), ready := true)
  }

  /** The start delay of the DHCP client. */
  ghost function Delayed(t: Top): (r: Top)
    requires Sized(t)
    ensures Sized(r)
  {
    if t.start || t.client.st != D.Idle then t
    else
      var d: word := (t.delay + 1) % WRAP;
      if d > DHCP_DELAY then t.(start := true, delay := 0) else t.(delay := d)
  }

  ghost function Prologue(t: Top): (r: Top)
    requires Sized(t)
    ensures Sized(r)
  {
    Delayed(Greeted(t))
  }

  // ---------------------------------------------------------------- a received frame

  function HeaderOfFrame(frame: seq<word>): Ip.IpRx
    requires |frame| == FRAME_BUF_WORDS
  {
    Ip.Parse(ReadBytes(frame, 0, 20))
  }

  /** Frames whose length fields the layers' arrays have room for. */
  predicate Manageable(eth: u16, frame: seq<word>)
    requires |frame| == FRAME_BUF_WORDS
  {
    var ip := HeaderOfFrame(frame);
    eth == ETHERTYPE_IPV4 && ip.valid ==>
      && (ip.protocol == Ip.PROTO_ICMP && Icmp.Answers(frame) ==> 20 <= ip.totalLen <= 20 + Icmp.MAX_MESSAGE)
      && (ip.protocol == Ip.PROTO_TCP ==> TcpFrame.LengthsFit(ip, frame))
      && (ip.protocol == Ip.PROTO_UDP && ParseUdp(frame).valid ==> 8 <= ParseUdp(frame).length <= MAX_DATAGRAM)
  }

  ghost function OnArp(t: Top, frame: seq<word>): (r: Top)
    requires Sized(t) && |frame| == FRAME_BUF_WORDS
    ensures Sized(r) && r.ch == t.ch && r.mac == t.mac
  {
    var a := ParseArp(frame);
    var u := t.(arp := Learn(t.arp, a.senderIp, a.senderMac));
    if Asks(a) then u.(buffer := AnswerBuffer(t.buffer, a), req := ArpReq(t.req, a.senderMac)) else u
  }

  ghost function OnIcmp(t: Top, ip: Ip.IpRx, frame: seq<word>): (r: Top)
    requires Sized(t) && |frame| == FRAME_BUF_WORDS
    requires Icmp.Answers(frame) ==> 20 <= ip.totalLen <= 20 + Icmp.MAX_MESSAGE
    ensures Sized(r) && r.ch == t.ch && r.mac == t.mac
  {
    hide Icmp.ReplyBuffer, Icmp.Answers, Answer, AfterLookup;
    if Icmp.Answers(frame) then
      t.(buffer := Icmp.ReplyBuffer(t.buffer, frame, ip), req := Icmp.ReplyReq(t.req, Answer(t.arp, ip.srcIp), ip),
         arp := AfterLookup(t.arp, ip.srcIp))
    else t
  }

  ghost function OnIgmp(t: Top, frame: seq<word>): (r: Top)
    requires Sized(t) && |frame| == FRAME_BUF_WORDS
    ensures Sized(r) && r.ch == t.ch && r.mac == t.mac
  {
    if Igmp.Asked(frame) then t.(buffer := Igmp.ReportBuffer(t.buffer, frame), req := Igmp.ReportReq(t.req)) else t
  }

  /** The datagram's payload is copied to where its echo will be built. */
  ghost function OnUdp(t: Top, ip: Ip.IpRx, frame: seq<word>): (r: Top)
    requires Sized(t) && |frame| == FRAME_BUF_WORDS
    requires ParseUdp(frame).valid ==> 8 <= ParseUdp(frame).length <= MAX_DATAGRAM
    ensures Sized(r) && r.ch == t.ch && r.mac == t.mac
  {
    hide ParseUdp;
    var u := ParseUdp(frame);
    if !u.valid then t
    else
      var n := (u.payloadLen + 3) / 4;
      t.(buffer := Stored(t.buffer, TX_UDP_BASE + 7, frame[7..7 + n]),
         pending := Some(Pending(u.length, ip.totalLen, u.srcPort, ip.srcIp)))
  }

  /** What the table hands to the MAC, in the buffer and the request register. */
  ghost function Performed(t: Top, tcp: Tcp.State, out: Option<Tcp.Out>, junk: seq<byte>): (r: Top)
    requires Sized(t) && SaneTable(tcp) && |junk| == TcpFrame.SCRATCH
    requires out.Some? ==> TcpFrame.Sendable(out.value.flags, out.value.payload)
    ensures Sized(r) && r.ch == t.ch && r.mac == t.mac
  {
    match out
    case None => t.(tcp := tcp)
    case Some(o) =>
      t.(tcp := tcp, buffer := TcpFrame.SendBuffer(t.buffer, o.conn, o.flags, o.payload, junk),
         req := TcpFrame.SendReq(t.req, Answer(t.arp, o.conn.peerIp), 4 * TcpFrame.DataOffset(o.flags) + |o.payload|),
         arp := AfterLookup(t.arp, o.conn.peerIp))
  }

  ghost function OnTcp(t: Top, ip: Ip.IpRx, frame: seq<word>, junk: seq<byte>): (r: Top)
    requires Sized(t) && |frame| == FRAME_BUF_WORDS && TcpFrame.LengthsFit(ip, frame) && |junk| == TcpFrame.SCRATCH
    ensures Sized(r) && r.ch == t.ch && r.mac == t.mac
  {
    TcpFrame.ParsedValid(ip, frame);
    var s := TcpFrame.ParseSegment(ip, frame);
    ReceiveSendable(t.tcp, s);
    var (tcp, out) := Tcp.Receive(t.tcp, s);
    Performed(t, tcp, out, junk)
  }

  /** The dispatch on a completed frame. */
  ghost function Dispatch(t: Top, eth: u16, frame: seq<word>, junk: seq<byte>): (r: Top)
    requires Sized(t) && |frame| == FRAME_BUF_WORDS && Manageable(eth, frame) && |junk| == TcpFrame.SCRATCH
    ensures Sized(r) && r.ch == t.ch && r.mac == t.mac
  {
    var ip := HeaderOfFrame(frame);
    if eth == ETHERTYPE_ARP then OnArp(t, frame)
    else if eth != ETHERTYPE_IPV4 || !ip.valid then t
    else if ip.protocol == Ip.PROTO_ICMP then OnIcmp(t, ip, frame)
    else if ip.protocol == Ip.PROTO_IGMP then OnIgmp(t, frame)
    else if ip.protocol == Ip.PROTO_TCP then OnTcp(t, ip, frame, junk)
    else if ip.protocol == Ip.PROTO_UDP then OnUdp(t, ip, frame)
    else t
  }

  // ---------------------------------------------------------------- the gated builders

  ghost function DhcpTurn(t: Top): (r: Top)
    requires Sized(t)
    ensures Sized(r) && r.ch == t.ch && r.mac == t.mac
  {
    var (c, sent) := D.TxStep(t.client, t.start);
    if t.req.request then t
    else if sent.None? then t.(client := c)
    else t.(client := c, buffer := D.FrameBuffer(t.buffer, c, sent.value), req := D.DhcpReq(t.req))
  }

  ghost function UdpTurn(t: Top, busy: bool, pacing: nat): (r: Top)
    requires Sized(t)
    ensures Sized(r) && r.ch == t.ch && r.mac == t.mac
  {
    if t.req.request || busy then t
    else
      var (u, job) := Choose(t.udp, t.pending, pacing);
      match job
      case None => t.(udp := u, pending := None)
      case Some(j) =>
        var m := Answer(t.arp, j.ip);
        t.(udp := AfterJob(u, j, m), buffer := JobBuffer(t.buffer, u, j, m), req := JobReq(t.req, j, m),
           arp := AfterLookup(t.arp, j.ip), pending := None)
  }

  ghost function TcpTurn(t: Top, busy: bool, junk: seq<byte>): (r: Top)
    requires Sized(t) && |junk| == TcpFrame.SCRATCH
    ensures Sized(r) && r.ch == t.ch && r.mac == t.mac
  {
    if t.req.request || busy then t
    else
      MaintainSendable(t.tcp);
      var (tcp, out) := Tcp.Maintain(t.tcp);
      Performed(t, tcp, out, junk)
  }

  ghost function Builders(t: Top, busy: bool, pacing: nat, junk: seq<byte>): (r: Top)
    requires Sized(t) && |junk| == TcpFrame.SCRATCH
    ensures Sized(r) && r.ch == t.ch && r.mac == t.mac
  {
    TcpTurn(UdpTurn(DhcpTurn(t), busy, pacing), busy, junk)
  }

  // ---------------------------------------------------------------- one call

  /** The frame a call completes, if any. */
  ghost function Arrived(t: Top, i: Input): Option<u16>
    requires Sized(t)
  {
    match MacRx.Pass(t.ch, true, i.beat).1
    case None => None
    case Some(a) => Some(a.info.ethertype)
  }

  /** The staging buffer after the call has received its byte. */
  ghost function FrameNow(t: Top, i: Input): (f: seq<word>)
    requires Sized(t)
    ensures |f| == FRAME_BUF_WORDS
  {
    MacRx.Pass(t.ch, true, i.beat).0.frame
  }

  /** The call can be made: what it receives fits. */
  ghost predicate Callable(t: Top, i: Input) {
    && Sized(t) && ValidInput(i)
    && (Arrived(t, i).Some? ==> Manageable(Arrived(t, i).value, FrameNow(t, i)))
  }

  /** After the MAC has had its turn. */
  ghost function AfterMac(t: Top, i: Input): (r: Top)
    requires Sized(t)
    ensures Sized(r)
  {
    var p := Prologue(t);
    var (s, r, _) := MacTx.TxStep(p.mac, p.req, p.buffer);
    MacLegal(p.mac, p.req, p.buffer);
    p.(ch := MacRx.Pass(t.ch, true, i.beat).0, mac := s, req := r)
  }

  ghost function AfterFrame(t: Top, i: Input): (r: Top)
    requires Callable(t, i)
    ensures Sized(r)
  {
    var a := AfterMac(t, i);
    if Arrived(t, i).None? then a else Dispatch(a, Arrived(t, i).value, FrameNow(t, i), i.junk1)
  }

  /** mac_tx_busy. */
  predicate Busy(t: Top) { MacTx.Busy(t.mac, t.req) }

  /** One call of udp_echo with reset released. */
  ghost function Step(t: Top, i: Input, pacing: nat): (r: Top)
    requires Callable(t, i)
    ensures Sized(r)
  {
    Builders(AfterFrame(t, i), Busy(t), pacing, i.junk2)
  }

  /** The byte the call writes to the wire. */
  ghost function Written(t: Top): seq<Beat>
    requires Sized(t)
  {
    var p := Prologue(t);
    match MacTx.TxStep(p.mac, p.req, p.buffer).2
    case None => []
    case Some(b) => [b]
  }

  /** Power-up: everything zero but for the reset values of the layers. */
  function PowerUp(frame: seq<word>): Top {
    Top(MacRx.Channel(MacRx.RESET, [], frame), MacTx.RESET, NO_REQUEST, seq(BUFFER_DEPTH, _ => 0),
        D.RESET, false, 0, UDP_RESET, None, Tcp.INIT, EMPTY, false)
  }

  // ---------------------------------------------------------------- what the layers hand over is well formed

  lemma MacLegal(s: MacTx.Tx, r: TxReq, buffer: seq<word>)
    requires |buffer| == BUFFER_DEPTH && MacTx.Legal(s, BUFFER_DEPTH) && MacTx.LegalReq(r, BUFFER_DEPTH)
    ensures MacTx.Legal(MacTx.TxStep(s, r, buffer).0, BUFFER_DEPTH)
    ensures MacTx.LegalReq(MacTx.TxStep(s, r, buffer).1, BUFFER_DEPTH)
  {
    hide MacTx.HeaderByte, MacTx.DataByte, MacTx.Legal;
    MacWire.StepLegal(s, r, buffer);
  }

  lemma ReceiveSendable(t: Tcp.State, s: Tcp.Segment)
    requires SaneTable(t) && Tcp.ValidSegment(s) && s.peer.wscale <= 7
    ensures Tcp.Valid(t) && Tcp.AllSound(t) && SaneTable(Tcp.Receive(t, s).0)
    ensures var out := Tcp.Receive(t, s).1; out.Some? ==> TcpFrame.Sendable(out.value.flags, out.value.payload)
  {
    hide Tcp.Noted, Tcp.Opened, Tcp.Queue, Tcp.Find, TcpTable.Good, TcpTable.Unique;
    var tops :| TcpTable.Inv(t, tops);
    TcpTable.StepKeepsInv(t, TcpTable.Rx(s), tops);
    TcpTable.ReceiveForm(t, s);
  }

  lemma MaintainSendable(t: Tcp.State)
    requires SaneTable(t)
    ensures Tcp.Valid(t) && Tcp.AllSound(t) && SaneTable(Tcp.Maintain(t).0)
    ensures var out := Tcp.Maintain(t).1; out.Some? ==> TcpFrame.Sendable(out.value.flags, out.value.payload)
  {
    hide TcpTable.Good, TcpTable.Unique;
    var tops :| TcpTable.Inv(t, tops);
    TcpTable.StepKeepsInv(t, TcpTable.Idle, tops);
  }
}
