/** Frame integrity under the gate: while a frame streams over many calls no builder touches a word it still needs,
    and every request raised becomes exactly one frame on the wire, with the buffer as it was when built. */
module EchoIntegrity {
  import opened Bytes
  import opened Layout
  import opened Store
  import opened Arp
  import opened Echo
  import D = Dhcp
  import DhcpOptions
  import Icmp
  import Igmp
  import Ip
  import MacRx
  import MacTx
  import MacWire
  import Tcp
  import TcpFrame
  import Udp

  // ---------------------------------------------------------------- what is still owed to the wire

  /** What the MAC has yet to write of the frame in flight. */
  function Remaining(s: MacTx.Tx, buffer: seq<word>): seq<Beat>
    requires |buffer| == BUFFER_DEPTH && MacTx.Legal(s, BUFFER_DEPTH)
  {
    if s.st == MacTx.Idle then []
    else
      var w := MacWire.WireOf(MacWire.Latched(s), buffer);
      if MacWire.Position(s) <= |w| then w[MacWire.Position(s)..] else []
  }

  /** The frame of a request not yet taken. */
  function Waiting(r: TxReq, buffer: seq<word>): seq<Beat>
    requires |buffer| == BUFFER_DEPTH && MacTx.LegalReq(r, BUFFER_DEPTH)
  {
    if r.request then MacWire.WireOf(r, buffer) else []
  }

  ghost function Rest(t: Top): seq<Beat>
    requires Sized(t)
  {
    Remaining(t.mac, t.buffer) + Waiting(t.req, t.buffer)
  }

  /** The frame a call asks for, as the buffer stands when the call ends. */
  ghost function Raised(t: Top, i: Input, pacing: nat): seq<Beat>
    requires Callable(t, i)
  {
    var u := Step(t, i, pacing);
    if !AfterMac(t, i).req.request && u.req.request then MacWire.WireOf(u.req, u.buffer) else []
  }

  // ---------------------------------------------------------------- the invariant

  /** Requests lie in one region of the partition. */
  predicate Inside(r: TxReq) {
    || (r.addr == TX_UDP_BASE && r.len <= 4 * TX_UDP_SIZE)
    || (r.addr == TX_SCRATCH_BASE && r.len <= 4 * TX_SCRATCH_SIZE)
    || (r.addr == DHCP_FRAME_BASE && r.len == 28 + D.MSG_SIZE)
  }

  /** Received messages never reach the client, so it never leaves its first phase. */
  predicate FirstPhase(c: D.Client) {
    D.Sane(c) && (c.st == D.Idle || c.st == D.Discover || c.st == D.WaitOffer || c.st == D.Failed)
  }

  /** MAC and request register: what waits behind a frame in flight lies in another region. */
  predicate Orderly(s: MacTx.Tx, r: TxReq, buffer: seq<word>) {
    && (s.st != MacTx.Idle ==> MacWire.Streaming(s, buffer) && Inside(MacWire.Latched(s)))
    && (r.request ==> Inside(r))
    && (s.st != MacTx.Idle && r.request ==> r.addr != s.wbase)
  }

  /** While a DHCP frame waits or streams, the client's timer cannot be further than the frame. */
  predicate Timed(s: MacTx.Tx, r: TxReq, c: D.Client) {
    && (r.request && r.addr == DHCP_FRAME_BASE ==> c.st == D.WaitOffer && c.timer == 0)
    && (s.st != MacTx.Idle && s.wbase == DHCP_FRAME_BASE ==> c.st == D.WaitOffer && c.timer <= MacWire.Position(s) + 1)
  }

  ghost predicate Inv(t: Top) {
    && Sized(t) && FirstPhase(t.client)
    && Orderly(t.mac, t.req, t.buffer) && Timed(t.mac, t.req, t.client)
    && (!t.ready ==> t.mac.st == MacTx.Idle && !t.req.request)
  }

  // ---------------------------------------------------------------- the condition on what is received

  /** What handling a received frame does to the transmit side: nothing, a reply built in a region, a ping reply too
      long for its region, or a datagram captured in the UDP region. */
  datatype Effect = Nothing | Reply(base: nat) | Spill | Capture

  ghost function EffectOf(tcp: Tcp.State, eth: u16, frame: seq<word>): Effect
    requires SaneTable(tcp) && |frame| == FRAME_BUF_WORDS && Manageable(eth, frame)
  {
    var ip := HeaderOfFrame(frame);
    if eth == ETHERTYPE_ARP then if Udp.Asks(Udp.ParseArp(frame)) then Reply(TX_SCRATCH_BASE) else Nothing
    else if eth != ETHERTYPE_IPV4 || !ip.valid then Nothing
    else if ip.protocol == Ip.PROTO_ICMP then PingEffect(ip, frame)
    else if ip.protocol == Ip.PROTO_IGMP then if Igmp.Asked(frame) then Reply(TX_SCRATCH_BASE) else Nothing
    else if ip.protocol == Ip.PROTO_TCP then if Answered(tcp, ip, frame) then Reply(TX_UDP_BASE) else Nothing
    else if ip.protocol == Ip.PROTO_UDP && Udp.ParseUdp(frame).valid then Capture
    else Nothing
  }

  function PingEffect(ip: Ip.IpRx, frame: seq<word>): Effect
    requires |frame| == FRAME_BUF_WORDS
  {
    if !Icmp.Answers(frame) then Nothing else if ip.totalLen <= 256 then Reply(TX_SCRATCH_BASE) else Spill
  }

  /** The effect takes the request register. */
  predicate Asks(e: Effect) { e.Reply? || e.Spill? }

  /** The TCP segment makes tcp_rx_process send at once. */
  ghost predicate Answered(tcp: Tcp.State, ip: Ip.IpRx, frame: seq<word>)
    requires SaneTable(tcp) && |frame| == FRAME_BUF_WORDS && TcpFrame.LengthsFit(ip, frame)
  {
    TcpFrame.ParsedValid(ip, frame);
    ReceiveSendable(tcp, TcpFrame.ParseSegment(ip, frame));
    Tcp.Receive(tcp, TcpFrame.ParseSegment(ip, frame)).1.Some?
  }

  /** The effect does not collide with the frame in flight or the one waiting. */
  predicate Clear(s: MacTx.Tx, r: TxReq, e: Effect) {
    match e
    case Nothing => true
    case Reply(base) => !r.request && (s.st == MacTx.Idle || s.wbase != base)
    case Spill => false
    case Capture => (r.request ==> r.addr != TX_UDP_BASE) && (s.st == MacTx.Idle || s.wbase != TX_UDP_BASE)
  }

  /** The condition on what is received: a frame that completes while the MAC is busy asks for no reply that would
      push out a waiting one, and writes no region being sent. */
  ghost predicate Gated(t: Top, i: Input)
    requires Callable(t, i)
  {
    var a := AfterMac(t, i);
    Arrived(t, i).Some? ==> Clear(a.mac, a.req, EffectOf(a.tcp, Arrived(t, i).value, FrameNow(t, i)))
  }

  // ---------------------------------------------------------------- the MAC's turn

  /** The MAC's turn on its registers: the invariant stays, and the byte written leaves the front of the debt. */
  ghost predicate PaysOff(s: MacTx.Tx, r: TxReq, buffer: seq<word>)
    requires |buffer| == BUFFER_DEPTH && MacTx.Legal(s, BUFFER_DEPTH) && MacTx.LegalReq(r, BUFFER_DEPTH)
  {
    var (s', r', out) := MacTx.TxStep(s, r, buffer);
    && MacTx.Legal(s', BUFFER_DEPTH) && MacTx.LegalReq(r', BUFFER_DEPTH) && Orderly(s', r', buffer)
    && (!MacTx.Busy(s, r) ==> s'.st == MacTx.Idle && !r'.request)
    && Remaining(s, buffer) + Waiting(r, buffer)
       == (if out.Some? then [out.value] else []) + (Remaining(s', buffer) + Waiting(r', buffer))
  }

  lemma MacTurn(s: MacTx.Tx, r: TxReq, buffer: seq<word>)
    requires |buffer| == BUFFER_DEPTH && MacTx.Legal(s, BUFFER_DEPTH) && MacTx.LegalReq(r, BUFFER_DEPTH)
    requires Orderly(s, r, buffer)
    ensures PaysOff(s, r, buffer)
  {
    hide PaysOff, Orderly, MacTx.Legal;
    if s.st == MacTx.Idle {
      MacTurnIdle(s, r, buffer);
    } else {
      MacTurnStreaming(s, r, buffer);
    }
  }

  lemma MacTurnIdle(s: MacTx.Tx, r: TxReq, buffer: seq<word>)
    requires |buffer| == BUFFER_DEPTH && MacTx.Legal(s, BUFFER_DEPTH) && MacTx.LegalReq(r, BUFFER_DEPTH)
    requires Orderly(s, r, buffer)
    requires s.st == MacTx.Idle
    ensures PaysOff(s, r, buffer)
  {
    hide MacWire.WireOf, MacWire.Streaming, Inside;
    MacLegal(s, r, buffer);
    if r.request {
      MacWire.Accepts(s, r, buffer);
      assert MacWire.WireOf(r, buffer)[0..] == MacWire.WireOf(r, buffer);
    }
  }

  lemma MacTurnStreaming(s: MacTx.Tx, r: TxReq, buffer: seq<word>)
    requires |buffer| == BUFFER_DEPTH && MacTx.Legal(s, BUFFER_DEPTH) && MacTx.LegalReq(r, BUFFER_DEPTH)
    requires Orderly(s, r, buffer)
    requires s.st != MacTx.Idle
    ensures PaysOff(s, r, buffer)
  {
    hide MacWire.WireOf, MacWire.Streaming, MacTx.TxStep, MacWire.Position, Inside;
    MacLegal(s, r, buffer);
    MacWire.NotIdle(s, buffer);
    MacWire.StepEmits(s, r, buffer);
    var w := MacWire.WireOf(MacWire.Latched(s), buffer);
    var p := MacWire.Position(s);
    assert w[p..] == [w[p]] + w[p + 1..];
    if p + 1 < |w| {
      MacWire.NotIdle(MacTx.TxStep(s, r, buffer).0, buffer);
    }
  }

  lemma MacTimed(s: MacTx.Tx, r: TxReq, buffer: seq<word>, c: D.Client)
    requires |buffer| == BUFFER_DEPTH && MacTx.Legal(s, BUFFER_DEPTH) && MacTx.LegalReq(r, BUFFER_DEPTH)
    requires Orderly(s, r, buffer) && Timed(s, r, c)
    ensures var (s', r', _) := MacTx.TxStep(s, r, buffer);
      && (r'.request ==> r' == r && s.st != MacTx.Idle)
      && (s'.st != MacTx.Idle && s'.wbase == DHCP_FRAME_BASE ==> c.st == D.WaitOffer && c.timer <= MacWire.Position(s'))
  {
    hide MacWire.WireOf, MacWire.Streaming, MacTx.HeaderByte, MacTx.DataByte;
    if s.st != MacTx.Idle {
      hide MacTx.TxStep, MacWire.Position;
      MacWire.NotIdle(s, buffer);
      MacWire.StepEmits(s, r, buffer);
    }
  }

  // ---------------------------------------------------------------- the DHCP region

  /** A DHCP frame is built inside its region. */
  lemma FrameConfined(mem: seq<word>, c: D.Client, kind: byte, from: nat, len: nat)
    requires |mem| == BUFFER_DEPTH && 4 * from + len <= 4 * BUFFER_DEPTH
    requires from + (len + 3) / 4 <= DHCP_FRAME_BASE || from >= DHCP_FRAME_BASE + DHCP_REGION_SIZE
    ensures ReadBytes(D.FrameBuffer(mem, c, kind), from, len) == ReadBytes(mem, from, len)
  {
    hide DhcpOptions.WithBytes, D.FixedWords, WordsOf, D.FrameHeader, D.OptionBytes, MemByte;
    var m0 := Stored(mem, D.BUF_BASE, D.FixedWords(c.xid));
    var p := 4 * D.BUF_BASE + DhcpOptions.OPTIONS_AT;
    var m1 := DhcpOptions.WithBytes(m0, p, D.OptionBytes(c, kind));
    ReadApart(mem, D.BUF_BASE, D.FixedWords(c.xid), from, len);
    OptionsApart(m0, p, D.OptionBytes(c, kind), from, len);
    ReadApart(m1, DHCP_FRAME_BASE, WordsOf(D.FrameHeader(), 7), from, len);
  }

  lemma OptionsApart(m: seq<word>, p: nat, s: seq<byte>, from: nat, len: nat)
    requires p + |s| <= 4 * |m| && 4 * from + len <= 4 * |m|
    requires 4 * from + len <= p || p + |s| <= 4 * from
    ensures ReadBytes(DhcpOptions.WithBytes(m, p, s), from, len) == ReadBytes(m, from, len)
  {
    hide DhcpOptions.WithBytes, MemByte;
    var a, b := ReadBytes(DhcpOptions.WithBytes(m, p, s), from, len), ReadBytes(m, from, len);
    forall i | 0 <= i < len ensures a[i] == b[i] {
      DhcpOptions.WithBytesReads(m, p, s, 4 * from + i);
    }
  }

  /** A frame from another region does not notice. */
  lemma StreamUndisturbed(s: MacTx.Tx, mem: seq<word>, c: D.Client, kind: byte)
    requires |mem| == BUFFER_DEPTH && MacTx.Legal(s, BUFFER_DEPTH) && Orderly(s, NO_REQUEST, mem)
    requires s.st == MacTx.Idle || s.wbase != DHCP_FRAME_BASE
    ensures Remaining(s, D.FrameBuffer(mem, c, kind)) == Remaining(s, mem)
    ensures Orderly(s, NO_REQUEST, D.FrameBuffer(mem, c, kind))
  {
    hide D.FrameBuffer, MacTx.Wire, MacTx.Body;
    if s.st != MacTx.Idle {
      MacWire.NotIdle(s, mem);
      FrameConfined(mem, c, kind, s.wbase, s.nbytes);
    }
  }

  /** The client's turn: it builds only when nothing waits, and never under its own streaming frame. */
  lemma ClientTurn(c: D.Client, start: bool, s: MacTx.Tx)
    requires FirstPhase(c) && MacTx.Legal(s, BUFFER_DEPTH)
    requires s.st != MacTx.Idle && s.wbase == DHCP_FRAME_BASE ==>
      c.st == D.WaitOffer && c.timer <= MacWire.Position(s) && s.nbytes == 28 + D.MSG_SIZE
    ensures var (d, sent) := D.TxStep(c, start);
      && FirstPhase(d)
      && (sent.Some? ==> d.st == D.WaitOffer && d.timer == 0 && !(s.st != MacTx.Idle && s.wbase == DHCP_FRAME_BASE))
      && (s.st != MacTx.Idle && s.wbase == DHCP_FRAME_BASE ==>
            d.st == D.WaitOffer && d.timer <= MacWire.Position(s) + 1)
  {
    D.StepSane(c, D.Call(start));
  }

  // ---------------------------------------------------------------- one call

  /** The prologue writes only before anything was ever sent. */
  lemma PrologueKeeps(t: Top)
    requires Inv(t)
    ensures Inv(Prologue(t)) && Rest(Prologue(t)) == Rest(t)
    ensures Prologue(t).ready && Busy(Prologue(t)) == Busy(t)
  {
    hide MacWire.WireOf, MacWire.Streaming, D.Sane, Inside;
  }

  /** After the MAC's turn the byte written is what left the front of the debt. */
  lemma AfterMacOwes(t: Top, i: Input)
    requires Inv(t)
    ensures var a := AfterMac(t, i);
      && Rest(t) == Written(t) + Rest(a)
      && Orderly(a.mac, a.req, a.buffer) && FirstPhase(a.client) && a.ready
      && (!Busy(t) ==> a.mac.st == MacTx.Idle && !a.req.request)
      && (a.req.request ==> Timed(MacTx.RESET, a.req, a.client))
      && (a.mac.st != MacTx.Idle && a.mac.wbase == DHCP_FRAME_BASE ==>
            a.client.st == D.WaitOffer && a.client.timer <= MacWire.Position(a.mac))
  {
    hide MacWire.WireOf, MacWire.Streaming, MacTx.TxStep, D.Sane, Inside, Prologue, MacWire.Position, Remaining,
         Waiting, MacRx.Pass, SaneTable;
    PrologueKeeps(t);
    var p := Prologue(t);
    MacTurn(p.mac, p.req, p.buffer);
    MacTimed(p.mac, p.req, p.buffer, p.client);
  }

  /** What one region is written with does not show in another. */
  predicate Confined(before: seq<word>, after: seq<word>, base: nat)
    requires |before| == |after| == BUFFER_DEPTH
  {
    forall j :: 0 <= j < BUFFER_DEPTH && !(base <= j < base + RegionSize(base)) ==> after[j] == before[j]
  }

  function RegionSize(base: nat): nat {
    if base == TX_UDP_BASE then TX_UDP_SIZE else TX_SCRATCH_SIZE
  }

  lemma ConfinedReads(before: seq<word>, after: seq<word>, base: nat, r: TxReq)
    requires |before| == |after| == BUFFER_DEPTH && Confined(before, after, base)
    requires base == TX_UDP_BASE || base == TX_SCRATCH_BASE
    requires Inside(r) && r.addr != base
    ensures 4 * r.addr + r.len <= 4 * BUFFER_DEPTH
    ensures MacWire.WireOf(r, after) == MacWire.WireOf(r, before)
  {
    hide MacTx.Wire, MemByte;
    ReadSame(before, after, r.addr, r.len);
  }

  /** The transmit side after a frame is what the effect says. */
  predicate Follows(t: Top, u: Top, e: Effect)
    requires |t.buffer| == |u.buffer| == BUFFER_DEPTH
  {
    && u.mac == t.mac && u.client == t.client && u.start == t.start && u.ready == t.ready
    && match e
       case Nothing => u.buffer == t.buffer && u.req == t.req
       case Reply(base) => (base == TX_UDP_BASE || base == TX_SCRATCH_BASE) && Confined(t.buffer, u.buffer, base)
                           && u.req.request && Inside(u.req) && u.req.addr == base
       case Spill => u.req.request && u.req.addr == TX_SCRATCH_BASE
       case Capture => u.req == t.req && Confined(t.buffer, u.buffer, TX_UDP_BASE)
  }

  /** What handling a frame does to the transmit side is what EffectOf says. */
  lemma DispatchEffect(t: Top, eth: u16, frame: seq<word>, junk: seq<byte>)
    requires Sized(t) && |frame| == FRAME_BUF_WORDS && Manageable(eth, frame) && |junk| == TcpFrame.SCRATCH
    ensures Follows(t, Dispatch(t, eth, frame, junk), EffectOf(t.tcp, eth, frame))
  {
    hide Sized, OnArp, OnIcmp, OnIgmp, OnUdp, OnTcp, PingEffect, Igmp.Asked, Udp.ParseUdp, SaneTable, Icmp.Answers,
         Answered, TcpFrame.LengthsFit, HeaderOfFrame, Follows;
    var ip := HeaderOfFrame(frame);
    if eth == ETHERTYPE_ARP {
      ArpEffect(t, frame);
    } else if eth != ETHERTYPE_IPV4 || !ip.valid {
      Unmoved(t);
    } else if ip.protocol == Ip.PROTO_ICMP {
      IcmpEffect(t, ip, frame);
    } else if ip.protocol == Ip.PROTO_IGMP {
      IgmpEffect(t, frame);
    } else if ip.protocol == Ip.PROTO_TCP {
      TcpEffect(t, ip, frame, junk);
    } else if ip.protocol == Ip.PROTO_UDP {
      UdpEffect(t, ip, frame);
    } else {
      Unmoved(t);
    }
  }

  lemma Unmoved(t: Top)
    requires Sized(t)
    ensures Follows(t, t, Nothing)
  {
  }

  lemma ArpEffect(t: Top, frame: seq<word>)
    requires Sized(t) && |frame| == FRAME_BUF_WORDS
    ensures Follows(t, OnArp(t, frame), if Udp.Asks(Udp.ParseArp(frame)) then Reply(TX_SCRATCH_BASE) else Nothing)
  {
    hide Udp.ArpBody, MacRx.Live, SaneTable, MacTx.Legal, WordsOf, Learn, ReadBytes;
  }

  lemma IcmpEffect(t: Top, ip: Ip.IpRx, frame: seq<word>)
    requires Sized(t) && |frame| == FRAME_BUF_WORDS
    requires Icmp.Answers(frame) ==> 20 <= ip.totalLen <= 20 + Icmp.MAX_MESSAGE
    ensures Follows(t, OnIcmp(t, ip, frame), PingEffect(ip, frame))
  {
    hide Icmp.ReplyBuffer, MacRx.Live, SaneTable, MacTx.Legal, Icmp.Answers, Answer, AfterLookup;
    if Icmp.Answers(frame) {
      Icmp.ReplyConfined(t.buffer, frame, ip);
    }
  }

  lemma IgmpEffect(t: Top, frame: seq<word>)
    requires Sized(t) && |frame| == FRAME_BUF_WORDS
    ensures Follows(t, OnIgmp(t, frame), if Igmp.Asked(frame) then Reply(TX_SCRATCH_BASE) else Nothing)
  {
    hide MacRx.Live, SaneTable, MacTx.Legal, Igmp.Asked, Igmp.ReportBytes, Ip.Header, WordsOf;
  }

  lemma UdpEffect(t: Top, ip: Ip.IpRx, frame: seq<word>)
    requires Sized(t) && |frame| == FRAME_BUF_WORDS
    requires Udp.ParseUdp(frame).valid ==> 8 <= Udp.ParseUdp(frame).length <= MAX_DATAGRAM
    ensures Follows(t, OnUdp(t, ip, frame), if Udp.ParseUdp(frame).valid then Capture else Nothing)
  {
    hide Udp.ParseUdp, MacRx.Live, SaneTable, MacTx.Legal;
  }

  lemma TcpEffect(t: Top, ip: Ip.IpRx, frame: seq<word>, junk: seq<byte>)
    requires Sized(t) && |frame| == FRAME_BUF_WORDS && TcpFrame.LengthsFit(ip, frame) && |junk| == TcpFrame.SCRATCH
    ensures Follows(t, OnTcp(t, ip, frame, junk), if Answered(t.tcp, ip, frame) then Reply(TX_UDP_BASE) else Nothing)
  {
    hide TcpFrame.SendBuffer, MacRx.Live, SaneTable, MacTx.Legal, Tcp.Receive, TcpFrame.ParseSegment,
         TcpFrame.SegmentBytes, Answer, AfterLookup, TcpFrame.LengthsFit;
    TcpFrame.ParsedValid(ip, frame);
    var s := TcpFrame.ParseSegment(ip, frame);
    ReceiveSendable(t.tcp, s);
    var out := Tcp.Receive(t.tcp, s).1;
    if out.Some? {
      TcpFrame.SendReads(t.buffer, out.value.conn, out.value.flags, out.value.payload, junk);
    }
  }

  /** A gated frame leaves the debt as it was, but for the reply it asks for. */
  lemma FrameOwes(t: Top, i: Input)
    requires Callable(t, i) && Inv(t) && Gated(t, i)
    ensures var a, f := AfterMac(t, i), AfterFrame(t, i);
      && f.mac == a.mac && f.client == a.client && f.start == a.start && f.ready == a.ready
      && Orderly(f.mac, f.req, f.buffer)
      && (a.req.request ==> f.req == a.req)
      && (f.req.request ==> Inside(f.req) && (f.req.addr == DHCP_FRAME_BASE ==> f.req == a.req))
      && Rest(f) == Rest(a) + if !a.req.request && f.req.request then MacWire.WireOf(f.req, f.buffer) else []
  {
    hide AfterMac, Dispatch, FrameNow, Manageable, MacRx.Pass, EffectOf, Inside, Confined, MacWire.WireOf, MacRx.Live,
         SaneTable;
    AfterMacOwes(t, i);
    var a, f := AfterMac(t, i), AfterFrame(t, i);
    if Arrived(t, i).Some? {
      DispatchEffect(a, Arrived(t, i).value, FrameNow(t, i), i.junk1);
      var e := EffectOf(a.tcp, Arrived(t, i).value, FrameNow(t, i));
      if !e.Nothing? {
        EffectOwes(a, f, if e.Reply? then e.base else TX_UDP_BASE);
      }
    }
  }

  lemma EffectOwes(a: Top, f: Top, base: nat)
    requires Sized(a) && Sized(f) && Orderly(a.mac, a.req, a.buffer)
    requires f.mac == a.mac && (base == TX_UDP_BASE || base == TX_SCRATCH_BASE) && Confined(a.buffer, f.buffer, base)
    requires a.mac.st == MacTx.Idle || a.mac.wbase != base
    requires a.req.request ==> f.req == a.req && a.req.addr != base
    requires f.req.request && f.req != a.req ==> Inside(f.req) && f.req.addr == base
    ensures Orderly(f.mac, f.req, f.buffer)
    ensures Rest(f) == Rest(a) + if !a.req.request && f.req.request then MacWire.WireOf(f.req, f.buffer) else []
  {
    hide Inside, Confined, MacWire.WireOf, MacRx.Live, SaneTable, MacWire.Position;
    if a.req.request {
      ConfinedReads(a.buffer, f.buffer, base, a.req);
    }
    if a.mac.st != MacTx.Idle {
      MacWire.NotIdle(a.mac, a.buffer);
      ConfinedReads(a.buffer, f.buffer, base, MacWire.Latched(a.mac));
      ConfinedStreams(a.buffer, f.buffer, base, a.mac);
    }
  }

  lemma ConfinedStreams(before: seq<word>, after: seq<word>, base: nat, s: MacTx.Tx)
    requires |before| == |after| == BUFFER_DEPTH && Confined(before, after, base)
    requires base == TX_UDP_BASE || base == TX_SCRATCH_BASE
    requires MacWire.Streaming(s, before) && Inside(MacWire.Latched(s)) && s.wbase != base
    ensures MacWire.Streaming(s, after)
  {
    hide MacTx.Body, MemByte;
    ReadSame(before, after, s.wbase, s.nbytes);
  }

  /** Builders on a busy MAC: only the DHCP client may build, beside the frame in flight. */
  lemma BuildersBusy(f: Top, pacing: nat, junk: seq<byte>)
    requires Sized(f) && |junk| == TcpFrame.SCRATCH && f.ready && FirstPhase(f.client)
        && Orderly(f.mac, f.req, f.buffer)
    requires f.req.request ==> Timed(MacTx.RESET, f.req, f.client)
    requires f.mac.st != MacTx.Idle && f.mac.wbase == DHCP_FRAME_BASE ==>
      f.client.st == D.WaitOffer && f.client.timer <= MacWire.Position(f.mac)
    ensures var u := Builders(f, true, pacing, junk);
      && Inv(u) && u == DhcpTurn(f)
      && Rest(u) == Rest(f) + if !f.req.request && u.req.request then MacWire.WireOf(u.req, u.buffer) else []
  {
    hide MacWire.WireOf, MacWire.Streaming, D.TxStep, D.FrameBuffer, MacRx.Live, SaneTable, D.Sane;
    if !f.req.request {
      ClientTurn(f.client, f.start, f.mac);
      var (c, sent) := D.TxStep(f.client, f.start);
      if sent.Some? {
        StreamUndisturbed(f.mac, f.buffer, c, sent.value);
      }
    }
  }

  /** What the client's turn asks for. */
  lemma DhcpAsks(f: Top)
    requires Sized(f) && FirstPhase(f.client) && f.mac.st == MacTx.Idle
    requires f.req.request ==> Inside(f.req) && f.req.addr != DHCP_FRAME_BASE
    ensures var u := DhcpTurn(f);
      && u.mac == f.mac && u.ready == f.ready && FirstPhase(u.client)
      && (u.req.request ==> Inside(u.req) && Timed(f.mac, u.req, u.client))
  {
    hide D.TxStep, D.FrameBuffer, MacRx.Live, SaneTable, D.Sane, MacTx.Legal;
    if !f.req.request {
      ClientTurn(f.client, f.start, f.mac);
      var (c, sent) := D.TxStep(f.client, f.start);
      if sent.Some? {
        assert DhcpTurn(f).client == c;
      }
    }
  }

  /** What the UDP sender's turn asks for. */
  lemma UdpAsks(f: Top, pacing: nat)
    requires Sized(f) && FirstPhase(f.client) && f.mac.st == MacTx.Idle
    requires f.req.request ==> Inside(f.req) && Timed(f.mac, f.req, f.client)
    ensures var u := UdpTurn(f, false, pacing);
      && u.mac == f.mac && u.ready == f.ready && u.client == f.client
      && (u.req.request ==> Inside(u.req) && Timed(f.mac, u.req, u.client))
  {
    hide MacRx.Live, SaneTable, D.Sane, Udp.JobBuffer, AfterLookup, Answer;
  }

  /** What the TCP maintenance's turn asks for. */
  lemma TcpAsks(f: Top, junk: seq<byte>)
    requires Sized(f) && |junk| == TcpFrame.SCRATCH && FirstPhase(f.client) && f.mac.st == MacTx.Idle
    requires f.req.request ==> Inside(f.req) && Timed(f.mac, f.req, f.client)
    ensures var u := TcpTurn(f, false, junk);
      && u.mac == f.mac && u.ready == f.ready && u.client == f.client
      && (u.req.request ==> Inside(u.req) && Timed(f.mac, u.req, u.client))
  {
    hide MacRx.Live, SaneTable, D.Sane, TcpFrame.SendBuffer, Tcp.Maintain, AfterLookup, Answer;
    MaintainSendable(f.tcp);
  }

  /** Builders on an idle MAC: at most one of them asks, and nothing was owed. */
  lemma BuildersIdle(f: Top, pacing: nat, junk: seq<byte>)
    requires Sized(f) && |junk| == TcpFrame.SCRATCH && f.ready && FirstPhase(f.client)
    requires f.mac.st == MacTx.Idle && (f.req.request ==> Inside(f.req) && f.req.addr != DHCP_FRAME_BASE)
    ensures Inv(Builders(f, false, pacing, junk)) && Builders(f, false, pacing, junk).mac == f.mac
  {
    hide MacWire.WireOf, MacWire.Streaming, D.TxStep, D.FrameBuffer, MacRx.Live, SaneTable, D.Sane, Udp.JobBuffer,
         TcpFrame.SendBuffer, Tcp.Maintain, Inside, DhcpTurn, UdpTurn, TcpTurn, MacTx.Legal;
    var d := DhcpTurn(f);
    DhcpAsks(f);
    var u := UdpTurn(d, false, pacing);
    UdpAsks(d, pacing);
    TcpAsks(u, junk);
  }

  /** A request stands until the MAC takes it. */
  lemma AnswerStands(t: Top, i: Input, pacing: nat)
    requires Callable(t, i) && AfterFrame(t, i).req.request
    ensures Step(t, i, pacing).req == AfterFrame(t, i).req && Step(t, i, pacing).buffer == AfterFrame(t, i).buffer
    ensures Step(t, i, pacing).arp == AfterFrame(t, i).arp
  {
    hide AfterFrame, Sized, Busy;
  }

  /** A gated call: what is owed and what is newly asked for is what is written and what is owed afterwards. */
  lemma StepOwes(t: Top, i: Input, pacing: nat)
    requires Callable(t, i) && Inv(t) && Gated(t, i)
    ensures Inv(Step(t, i, pacing))
    ensures Rest(t) + Raised(t, i, pacing) == Written(t) + Rest(Step(t, i, pacing))
  {
    hide Builders, AfterMac, Written, AfterFrame, Remaining, Waiting, Orderly, FirstPhase, Inside, MacWire.WireOf,
         MacWire.Position, MacRx.Pass, MacRx.Live, SaneTable, MacTx.Legal, Manageable;
    AfterMacOwes(t, i);
    FrameOwes(t, i);
    var a, f, u := AfterMac(t, i), AfterFrame(t, i), Step(t, i, pacing);
    if Busy(t) {
      BuildersBusy(f, pacing, i.junk2);
    } else {
      BuildersIdle(f, pacing, i.junk2);
      IdleOwes(a);
      IdleOwes(u);
    }
  }

  lemma IdleOwes(t: Top)
    requires Sized(t) && t.mac.st == MacTx.Idle
    ensures Rest(t) == if t.req.request then MacWire.WireOf(t.req, t.buffer) else []
  {
    hide MacWire.WireOf;
  }
}
