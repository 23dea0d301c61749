/** udp_echo as it runs: the layers' objects, the shared buffer and the request register, updated in place. */
module EchoBoard {
  import opened Bytes
  import opened Layout
  import opened Arp
  import opened Store
  import opened Echo
  import opened Udp
  import D = Dhcp
  import Icmp
  import Igmp
  import Ip
  import MacRx
  import MacTx
  import Tcp
  import TcpFrame
  import TcpLayer
  import TcpTable

  class Board {
    const rx: MacRx.Receiver
    const printer: MacTx.Printer
    const reg: ReqRegister
    const buffer: array<word>
    const dhcp: D.DhcpClient
    const sender: UdpSender
    const tcp: TcpLayer.TcpServer
    const arp: ArpCache
    const pacing: nat
    var start: bool
    var delay: word
    var pending: Option<Pending>
    var ready: bool

    ghost function Value(): Top
      requires arp.Valid()
      reads this, rx, rx.parser, rx.fifo, rx.frameBuf, printer, reg, buffer, dhcp, sender, tcp, tcp.conns, tcp.bufs,
            arp, arp.l1, arp.age, arp.l2
    {
      Top(rx.State(), printer.State(), reg.req, buffer[..], dhcp.State(), start, delay,
          sender.Value(), pending, tcp.Value(), arp.Value(), ready)
    }

    ghost predicate Valid()
      reads this, rx, rx.parser, rx.fifo, rx.frameBuf, printer, reg, buffer, dhcp, sender, tcp, tcp.conns, tcp.bufs,
            arp, arp.l1, arp.age, arp.l2
    {
      buffer != rx.frameBuf && arp.Valid() && Sized(Value())
    }

    /** The parts of udp_echo brought together. */
    constructor (rx: MacRx.Receiver, printer: MacTx.Printer, reg: ReqRegister, dhcp: D.DhcpClient, sender: UdpSender,
                 tcp: TcpLayer.TcpServer, arp: ArpCache, pacing: nat)
      requires rx.State() == MacRx.Channel(MacRx.RESET, [], rx.frameBuf[..]) && rx.frameBuf.Length == FRAME_BUF_WORDS
      requires printer.State() == MacTx.RESET && reg.req == NO_REQUEST && dhcp.State() == D.RESET
      requires sender.Value() == UDP_RESET && tcp.Value() == Tcp.INIT && arp.Valid() && arp.Value() == EMPTY
      ensures Valid() && this.pacing == pacing && this.rx == rx && Value() == PowerUp(rx.frameBuf[..])
    {
      hide ArpCache.Valid, ArpCache.Value, MacRx.Live, Sized, MacTx.Printer.State, D.DhcpClient.State,
           UdpSender.Value, TcpLayer.TcpServer.Value;
      this.rx, this.printer, this.reg, this.pacing := rx, printer, reg, pacing;
      this.dhcp, this.sender, this.tcp, this.arp := dhcp, sender, tcp, arp;
      buffer := new word[BUFFER_DEPTH](_ => 0);
      start, delay, pending, ready := false, 0, None, false;
      new;
      assert buffer[..] == seq(BUFFER_DEPTH, _ => 0);
      PowerUpSized(rx.frameBuf[..]);
    }

    /** Power-up. */
    static method PowerOn(pacing: nat) returns (b: Board)
      ensures fresh(b) && b.Valid() && b.pacing == pacing && b.Value() == PowerUp(b.rx.frameBuf[..])
    {
      hide ArpCache.Valid, ArpCache.Value, MacRx.Live, Sized, MacTx.Printer.State, D.DhcpClient.State,
           UdpSender.Value, TcpLayer.TcpServer.Value, PowerUp, Board.Value, Board.Valid;
      var tcp := new TcpLayer.TcpServer();
      var arp := new ArpCache();
      var rx := new MacRx.Receiver();
      var printer := new MacTx.Printer();
      var reg := new ReqRegister();
      var dhcp := new D.DhcpClient();
      var sender := new UdpSender();
      b := new Board(rx, printer, reg, dhcp, sender, tcp, arp, pacing);
    }

    /** The one-time initialisation. */
    method Greet()
      requires Valid()
      modifies this`ready, buffer
      ensures Valid() && Value() == Greeted(old(Value()))
    {
      hide ArpCache.Valid, ArpCache.Value, Sized, Stored;
      ghost var t := Value();
      SizedFacts(t);
      assert Sized(Greeted(t));
      if !ready {
        UdpSender.WriteHello(buffer);
        ready := true;
      }
    }

    /** The start delay. */
    method CountDelay()
      requires Valid()
      modifies this`start, this`delay
      ensures Valid() && Value() == Delayed(old(Value()))
    {
      hide ArpCache.Valid, ArpCache.Value, Sized;
      assert Sized(Delayed(Value()));
      if !start && dhcp.st == D.Idle {
        var d: word := (delay + 1) % WRAP;
        start, delay := d > DHCP_DELAY, if d > DHCP_DELAY then 0 else d;
      }
    }

    /** mac_rx_process and the staging of a completed frame. */
    method Receive(beat: Option<Beat>) returns (a: Option<MacRx.Arrival>)
      requires Valid()
      modifies rx.parser, rx.fifo, rx.frameBuf
      ensures Valid() && Value() == old(Value()).(ch := MacRx.Pass(old(Value()).ch, true, beat).0)
      ensures a == MacRx.Pass(old(Value()).ch, true, beat).1
    {
      hide ArpCache.Valid, ArpCache.Value, MacRx.Receiver.State, MacRx.Pass, MacTx.Legal, SaneTable;
      a := rx.Receive(true, beat);
    }

    /** mac_tx_process. */
    method Transmit() returns (busy: bool, out: Option<Beat>)
      requires Valid()
      modifies printer, reg
      ensures Valid() && busy == Busy(old(Value()))
      ensures var (s, r, o) := MacTx.TxStep(old(Value()).mac, old(Value()).req, old(Value()).buffer);
        Value() == old(Value()).(mac := s, req := r) && out == o
    {
      hide ArpCache.Valid, ArpCache.Value, MacRx.Receiver.State, MacTx.TxStep, MacRx.Live, SaneTable, MacTx.Legal;
      MacLegal(printer.State(), reg.req, buffer[..]);
      busy, out := printer.Process(reg, buffer);
    }

    method HandleArp()
      requires Valid()
      modifies buffer, reg, arp, arp.l1, arp.age, arp.l2
      ensures Valid() && Value() == OnArp(old(Value()), old(rx.frameBuf[..]))
    {
      hide ArpCache.Valid, ArpCache.Value, MacTx.Legal, SaneTable, ParseArp, AnswerBuffer, Learn, MacTx.Printer.State,
           D.DhcpClient.State, TcpLayer.TcpServer.Value, UdpSender.Value;
      ArpLayer.Process(rx.frameBuf, buffer, reg, arp);
    }

    method HandleIcmp(ip: Ip.IpRx)
      requires Valid() && ip.valid && ip.protocol == Ip.PROTO_ICMP
      requires Icmp.Answers(rx.frameBuf[..]) ==> 20 <= ip.totalLen <= 20 + Icmp.MAX_MESSAGE
      modifies buffer, reg, arp, arp.l1, arp.age, arp.l2
      ensures Valid() && Value() == OnIcmp(old(Value()), ip, old(rx.frameBuf[..]))
    {
      hide ArpCache.Valid, ArpCache.Value, MacTx.Legal, SaneTable, Icmp.Answers, Icmp.ReplyBuffer, Answer,
           AfterLookup, MacTx.Printer.State, D.DhcpClient.State, TcpLayer.TcpServer.Value, UdpSender.Value;
      Icmp.Responder.Process(ip, rx.frameBuf, buffer, reg, arp);
    }

    method HandleIgmp(ip: Ip.IpRx)
      requires Valid() && ip.valid && ip.protocol == Ip.PROTO_IGMP
      modifies buffer, reg
      ensures Valid() && Value() == OnIgmp(old(Value()), old(rx.frameBuf[..]))
    {
      hide ArpCache.Valid, ArpCache.Value, MacTx.Legal, SaneTable, Igmp.Asked, Igmp.ReportBuffer, MacTx.Printer.State,
           D.DhcpClient.State, TcpLayer.TcpServer.Value, UdpSender.Value;
      Igmp.Reporter.Process(rx.frameBuf, buffer, reg);
    }

    method HandleTcp(ip: Ip.IpRx) returns (ghost junk: seq<byte>)
      requires Valid() && TcpFrame.LengthsFit(ip, rx.frameBuf[..])
      modifies tcp, tcp.conns, tcp.bufs, buffer, reg, arp, arp.l1, arp.age, arp.l2
      ensures Valid() && |junk| == TcpFrame.SCRATCH
      ensures Value() == OnTcp(old(Value()), ip, old(rx.frameBuf[..]), junk)
    {
      hide ArpCache.Valid, ArpCache.Value, MacTx.Legal, SaneTable, TcpFrame.LengthsFit, TcpFrame.ParseSegment,
           Tcp.Receive, TcpFrame.SendBuffer, Answer, AfterLookup, MacTx.Printer.State, D.DhcpClient.State,
           TcpLayer.TcpServer.Value, UdpSender.Value;
      ghost var t := Value();
      TcpFrame.ParsedValid(ip, rx.frameBuf[..]);
      ReceiveSendable(t.tcp, TcpFrame.ParseSegment(ip, rx.frameBuf[..]));
      junk := tcp.RxProcess(ip, rx.frameBuf, buffer, reg, arp);
    }

    /** Words of the staged payload to where the echo will be built. */
    method CopyPayload(n: nat)
      requires buffer != rx.frameBuf && buffer.Length == BUFFER_DEPTH && rx.frameBuf.Length == FRAME_BUF_WORDS
      requires n <= 249
      modifies buffer
      ensures buffer[..] == Stored(old(buffer[..]), TX_UDP_BASE + 7, rx.frameBuf[7..7 + n])
    {
      for i := 0 to n
        invariant buffer[..] == Stored(old(buffer[..]), TX_UDP_BASE + 7, rx.frameBuf[7..7 + i])
      {
        buffer[TX_UDP_BASE + 7 + i] := rx.frameBuf[7 + i];
      }
    }

    method HandleUdp(ip: Ip.IpRx)
      requires Valid()
      requires ParseUdp(rx.frameBuf[..]).valid ==> 8 <= ParseUdp(rx.frameBuf[..]).length <= MAX_DATAGRAM
      modifies this`pending, buffer
      ensures Valid() && Value() == OnUdp(old(Value()), ip, old(rx.frameBuf[..]))
    {
      hide ArpCache.Valid, ArpCache.Value, MacTx.Legal, SaneTable, ParseUdp, MacTx.LegalReq, Stored,
           MacTx.Printer.State, D.DhcpClient.State, TcpLayer.TcpServer.Value, UdpSender.Value;
      var u := ParseUdp(rx.frameBuf[..]);
      if u.valid {
        CopyPayload((u.payloadLen + 3) / 4);
        pending := Some(Pending(u.length, ip.totalLen, u.srcPort, ip.srcIp));
      }
    }

    /** The dispatch on a completed frame. */
    method Handle(eth: u16) returns (ghost junk: seq<byte>)
      requires Valid() && Manageable(eth, Value().ch.frame)
      modifies this`pending, tcp, tcp.conns, tcp.bufs, buffer, reg, arp, arp.l1, arp.age, arp.l2
      ensures Valid() && |junk| == TcpFrame.SCRATCH
      ensures Value() == Dispatch(old(Value()), eth, old(Value()).ch.frame, junk)
    {
      hide ArpCache.Valid, ArpCache.Value, OnArp, OnIcmp, OnIgmp, OnTcp, OnUdp, ParseUdp, HeaderOfFrame, Icmp.Answers,
           TcpFrame.LengthsFit, MacTx.Legal, MacTx.LegalReq, SaneTable;
      junk := seq(TcpFrame.SCRATCH, _ => 0);
      if eth == ETHERTYPE_ARP {
        HandleArp();
      } else if eth == ETHERTYPE_IPV4 {
        var ip := Ip.Process(rx.frameBuf);
        IsHeader(rx.frameBuf[..], ip);
        if ip.valid {
          if ip.protocol == Ip.PROTO_ICMP {
            HandleIcmp(ip);
          } else if ip.protocol == Ip.PROTO_IGMP {
            HandleIgmp(ip);
          } else if ip.protocol == Ip.PROTO_TCP {
            junk := HandleTcp(ip);
          } else if ip.protocol == Ip.PROTO_UDP {
            HandleUdp(ip);
          }
        }
      }
    }

    /** The DHCP client, when no request waits. */
    method RunDhcp()
      requires Valid()
      modifies dhcp, buffer, reg
      ensures Valid() && Value() == DhcpTurn(old(Value()))
    {
      hide ArpCache.Valid, ArpCache.Value, MacTx.Legal, SaneTable, D.TxStep, D.FrameBuffer;
      ghost var t := Value();
      if !reg.req.request {
        dhcp.Tx(start, buffer, reg);
        ghost var (c, sent) := D.TxStep(t.client, t.start);
        assert dhcp.State() == c;
        assert sent.Some? ==> buffer[..] == D.FrameBuffer(t.buffer, c, sent.value) && reg.req == D.DhcpReq(t.req);
      }
    }

    /** The UDP sender, when no request waits and the MAC is free. */
    method RunUdp(busy: bool)
      requires Valid()
      modifies this`pending, sender, buffer, reg, arp, arp.l1, arp.age, arp.l2
      ensures Valid() && Value() == UdpTurn(old(Value()), busy, pacing)
    {
      hide ArpCache.Valid, ArpCache.Value, MacTx.Legal, SaneTable, JobBuffer, AfterJob, Answer, AfterLookup,
           MacRx.Live, Choose, MacRx.Receiver.State, MacTx.Printer.State, D.DhcpClient.State,
           TcpLayer.TcpServer.Value, UdpSender.Value;
      ghost var t := Value();
      assert Sized(UdpTurn(t, busy, pacing));
      if !reg.req.request && !busy {
        sender.Process(buffer, reg, arp, pending, pacing);
        pending := None;
      }
    }

    /** The TCP maintenance, when no request waits and the MAC is free. */
    method RunTcp(busy: bool) returns (ghost junk: seq<byte>)
      requires Valid()
      modifies tcp, tcp.conns, tcp.bufs, buffer, reg, arp, arp.l1, arp.age, arp.l2
      ensures Valid() && |junk| == TcpFrame.SCRATCH && Value() == TcpTurn(old(Value()), busy, junk)
    {
      hide ArpCache.Valid, ArpCache.Value, MacTx.Legal, SaneTable, Tcp.Maintain, TcpFrame.SendBuffer, Answer,
           AfterLookup, MacRx.Receiver.State, MacTx.Printer.State, D.DhcpClient.State, TcpLayer.TcpServer.Value,
           UdpSender.Value;
      junk := seq(TcpFrame.SCRATCH, _ => 0);
      if !reg.req.request && !busy {
        MaintainSendable(tcp.Value());
        junk := tcp.Maintenance(buffer, reg, arp);
      }
    }

    /** Initialisation, the received byte and the MAC's turn. */
    method Front(beat: Option<Beat>) returns (a: Option<MacRx.Arrival>, busy: bool, out: Option<Beat>)
      requires Valid()
      modifies this`start, this`delay, this`ready, rx.parser, rx.fifo, rx.frameBuf, printer, reg, buffer
      ensures Valid() && Value() == AfterMac(old(Value()), Input(beat, [], []))
      ensures a == MacRx.Pass(old(Value()).ch, true, beat).1 && busy == Echo.Busy(old(Value()))
      ensures Written(old(Value())) == if out.Some? then [out.value] else []
    {
      hide Value, Valid, MacRx.Pass, MacTx.TxStep, MacRx.Live, MacTx.Legal, MacTx.LegalReq, SaneTable, Stored;
      Greet();
      CountDelay();
      a := Receive(beat);
      busy, out := Transmit();
    }

    /** The gated builders in order of precedence. */
    method Build(busy: bool) returns (ghost junk: seq<byte>)
      requires Valid()
      modifies this`pending, dhcp, sender, tcp, tcp.conns, tcp.bufs, buffer, reg, arp, arp.l1, arp.age, arp.l2
      ensures Valid() && |junk| == TcpFrame.SCRATCH && Value() == Builders(old(Value()), busy, pacing, junk)
    {
      hide Value, Valid, Sized, DhcpTurn, UdpTurn, TcpTurn;
      RunDhcp();
      RunUdp(busy);
      junk := RunTcp(busy);
    }

    /** udp_echo with reset released: at most one byte in and one byte out. The ghost results are what the segment
        arrays on the stack held. */
    method Call(beat: Option<Beat>) returns (out: Option<Beat>, ghost junk1: seq<byte>, ghost junk2: seq<byte>)
      requires Valid()
      requires Arrived(Value(), Input(beat, [], [])).Some? ==>
        Manageable(Arrived(Value(), Input(beat, [], [])).value, FrameNow(Value(), Input(beat, [], [])))
      modifies this`start, this`delay, this`ready, this`pending, rx.parser, rx.fifo, rx.frameBuf, printer, reg, buffer,
               dhcp, sender, tcp, tcp.conns, tcp.bufs, arp, arp.l1, arp.age, arp.l2
      ensures Valid()
      ensures Callable(old(Value()), Input(beat, junk1, junk2))
      ensures Value() == Step(old(Value()), Input(beat, junk1, junk2), pacing)
      ensures Written(old(Value())) == if out.Some? then [out.value] else []
    {
      hide Value, Sized, Manageable, MacRx.Pass, Dispatch, Builders, MacTx.TxStep, Echo.Busy, Prologue, Written,
           ArpCache.Valid;
      var a, busy;
      a, busy, out := Front(beat);
      junk1 := seq(TcpFrame.SCRATCH, _ => 0);
      if a.Some? {
        junk1 := Handle(a.value.info.ethertype);
      }
      junk2 := Build(busy);
    }
  }

  lemma IsHeader(frame: seq<word>, ip: Ip.IpRx)
    requires |frame| == FRAME_BUF_WORDS && ip == Ip.Parse(ReadBytes(frame, 0, 20))
    ensures ip == HeaderOfFrame(frame)
  {
  }

  lemma PowerUpSized(frame: seq<word>)
    requires |frame| == FRAME_BUF_WORDS
    ensures Sized(PowerUp(frame))
  {
    TcpTable.InitInv();
  }

  lemma SizedFacts(t: Top)
    requires Sized(t)
    ensures |t.buffer| == BUFFER_DEPTH && MacRx.Live(t.ch) && MacTx.Legal(t.mac, BUFFER_DEPTH) && SaneTable(t.tcp)
  {
  }
}
