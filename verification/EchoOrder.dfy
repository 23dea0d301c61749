/** Who gets the MAC: the order of the builders in a call, and when the DHCP client is started. */
module EchoOrder {
  import opened Bytes
  import opened Layout
  import opened Arp
  import opened Echo
  import opened EchoIntegrity
  import opened EchoRuns
  import D = Dhcp
  import MacRx
  import MacTx
  import Tcp
  import TcpFrame
  import Udp

  /** What a call's builders make of the state behind the received frame. */
  predicate Ordered(g: Top, u: Top, busy: bool, pacing: nat)
    requires |g.buffer| == BUFFER_DEPTH && Tcp.Valid(g.tcp)
    requires g.pending.Some? ==> 8 <= g.pending.value.length <= MAX_DATAGRAM
  {
    var (c, sent) := D.TxStep(g.client, g.start);
    var (v, job) := Udp.Choose(g.udp, g.pending, pacing);
    if g.req.request then u == g
    else if sent.Some? then
      u == g.(client := c, buffer := D.FrameBuffer(g.buffer, c, sent.value), req := D.DhcpReq(g.req))
    else if busy then u == g.(client := c)
    else if job.Some? then
      && u.client == c && u.tcp == g.tcp && u.pending == None && u.req.request
      && u.req == Udp.JobReq(g.req, job.value, Answer(g.arp, job.value.ip))
      && u.buffer == Udp.JobBuffer(g.buffer, v, job.value, Answer(g.arp, job.value.ip))
    else
      && u.client == c && u.udp == v && u.pending == None && u.tcp == Tcp.Maintain(g.tcp).0
      && (u.req.request <==> Tcp.Parked(g.tcp) != [])
  }

  lemma DhcpFirst(g: Top)
    requires Sized(g)
    ensures var (c, sent) := D.TxStep(g.client, g.start);
      DhcpTurn(g) == if g.req.request then g else if sent.None? then g.(client := c)
                     else g.(client := c, buffer := D.FrameBuffer(g.buffer, c, sent.value), req := D.DhcpReq(g.req))
  {
    hide D.TxStep, D.FrameBuffer, Sized;
  }

  lemma UdpSecond(g: Top, busy: bool, pacing: nat)
    requires Sized(g)
    ensures g.req.request || busy ==> UdpTurn(g, busy, pacing) == g
    ensures !(g.req.request || busy) ==>
      var ((v, job), u) := (Udp.Choose(g.udp, g.pending, pacing), UdpTurn(g, busy, pacing));
      && u.client == g.client && u.tcp == g.tcp && u.pending == None
      && (job.None? ==> u == g.(udp := v, pending := None))
      && (job.Some? ==> u.req.request && u.req == Udp.JobReq(g.req, job.value, Answer(g.arp, job.value.ip))
                        && u.buffer == Udp.JobBuffer(g.buffer, v, job.value, Answer(g.arp, job.value.ip)))
  {
    hide MacRx.Live, MacTx.Legal, SaneTable, Udp.JobBuffer, Answer, AfterLookup;
  }

  lemma TcpThird(g: Top, busy: bool, junk: seq<byte>)
    requires Sized(g) && |junk| == TcpFrame.SCRATCH
    ensures Tcp.Valid(g.tcp)
    ensures g.req.request || busy ==> TcpTurn(g, busy, junk) == g
    ensures var u := TcpTurn(g, busy, junk);
      !(g.req.request || busy) ==>
        && u.client == g.client && u.udp == g.udp && u.pending == g.pending && u.tcp == Tcp.Maintain(g.tcp).0
        && (u.req.request <==> Tcp.Parked(g.tcp) != [])
  {
    hide MacRx.Live, MacTx.Legal, SaneTable, TcpFrame.SendBuffer, Answer, AfterLookup;
    MaintainSendable(g.tcp);
  }

  /** The order of a call, exactly. A reply to the received frame comes first and keeps all builders out. Else the
      DHCP client builds if it has something to send, even beside a frame in flight. Else, if the MAC was idle when
      the call began, the UDP sender builds if it has a datagram to echo or a HELLO due; else a chunk of the echo
      queue goes out, if there is one. */
  lemma BuildersOrdered(t: Top, i: Input, pacing: nat)
    requires Callable(t, i)
    ensures var g := AfterFrame(t, i);
      && |g.buffer| == BUFFER_DEPTH && Tcp.Valid(g.tcp)
      && (g.pending.Some? ==> 8 <= g.pending.value.length <= MAX_DATAGRAM)
      && Ordered(g, Step(t, i, pacing), Busy(t), pacing)
  {
    hide Ordered, AfterFrame, Busy, Builders, MacRx.Live, MacTx.Legal;
    InTurn(AfterFrame(t, i), Busy(t), pacing, i.junk2);
  }

  lemma InTurn(g: Top, busy: bool, pacing: nat, junk: seq<byte>)
    requires Sized(g) && |junk| == TcpFrame.SCRATCH
    ensures Ordered(g, Builders(g, busy, pacing, junk), busy, pacing)
  {
    hide D.TxStep, D.FrameBuffer, Udp.JobBuffer, Tcp.Maintain, Answer, DhcpTurn, UdpTurn, TcpTurn, MacRx.Live,
         SaneTable, MacTx.Legal;
    var d := DhcpTurn(g);
    DhcpFirst(g);
    UdpSecond(d, busy, pacing);
    TcpThird(UdpTurn(d, busy, pacing), busy, junk);
    var u := Builders(g, busy, pacing, junk);
    var (sent, job) := (D.TxStep(g.client, g.start).1, Udp.Choose(g.udp, g.pending, pacing).1);
    if !g.req.request && !busy && sent.None? && job.Some? {
      assert u.req == Udp.JobReq(g.req, job.value, Answer(g.arp, job.value.ip));
    }
  }

  // ---------------------------------------------------------------- the start of the DHCP client

  /** After n calls from power-up. */
  predicate Counted(t: Top, n: nat) {
    if t.start then n > DHCP_DELAY else n <= DHCP_DELAY && t.delay == n && t.client.st == D.Idle
  }

  lemma StepCounted(t: Top, i: Input, pacing: nat, n: nat)
    requires Callable(t, i) && Counted(t, n)
    ensures Counted(Step(t, i, pacing), n + 1)
  {
    hide MacRx.Live, MacTx.Legal, SaneTable, MacTx.TxStep, MacRx.Pass, Dispatch, D.FrameBuffer, Busy;
    DispatchClient(t, i);
    BuildersClient(AfterFrame(t, i), Busy(t), pacing, i.junk2);
  }

  lemma DispatchClient(t: Top, i: Input)
    requires Callable(t, i)
    ensures var (a, g) := (AfterMac(t, i), AfterFrame(t, i));
      g.client == a.client && g.start == a.start && g.delay == a.delay
  {
    hide MacRx.Live, MacTx.Legal, SaneTable, AfterMac, Arrived, FrameNow, EffectOf;
    if Arrived(t, i).Some? {
      DispatchEffect(AfterMac(t, i), Arrived(t, i).value, FrameNow(t, i), i.junk1);
      DispatchDelay(AfterMac(t, i), Arrived(t, i).value, FrameNow(t, i), i.junk1);
    }
  }

  lemma DispatchDelay(t: Top, eth: u16, frame: seq<word>, junk: seq<byte>)
    requires Sized(t) && |frame| == FRAME_BUF_WORDS && Manageable(eth, frame) && |junk| == TcpFrame.SCRATCH
    ensures Dispatch(t, eth, frame, junk).delay == t.delay
  {
    hide Sized, Udp.ParseArp, Udp.ParseUdp, HeaderOfFrame, TcpFrame.LengthsFit, TcpFrame.ParseSegment, Tcp.Receive,
         Learn, Answer, AfterLookup;
  }

  lemma BuildersClient(g: Top, busy: bool, pacing: nat, junk: seq<byte>)
    requires Sized(g) && |junk| == TcpFrame.SCRATCH
    ensures var u := Builders(g, busy, pacing, junk);
      && u.start == g.start && u.delay == g.delay && u.client == DhcpTurn(g).client
      && (g.client.st == D.Idle && !g.start ==> u.client.st == D.Idle)
  {
    hide Sized, D.FrameBuffer, Udp.Choose, Tcp.Maintain, Answer, AfterLookup;
  }

  lemma {:induction false} RunCounted(t: Top, ins: seq<Input>, pacing: nat, n: nat)
    requires GatedRun(t, ins, pacing) && Counted(t, n)
    ensures Counted(After(t, ins, pacing), n + |ins|)
    decreases |ins|
  {
    hide Step, Counted, Callable, Gated, Sized;
    if ins != [] {
      StepCounted(t, ins[0], pacing, n);
      RunCounted(Step(t, ins[0], pacing), ins[1..], pacing, n + 1);
    }
  }

  /** The client is started in the call after the first 100000000 from power-up, and not before. */
  lemma StartedExactly(frame: seq<word>, ins: seq<Input>, pacing: nat)
    requires |frame| == FRAME_BUF_WORDS && GatedRun(PowerUp(frame), ins, pacing)
    ensures After(PowerUp(frame), ins, pacing).start <==> |ins| > 100_000_000
  {
    hide After, GatedRun;
    RunCounted(PowerUp(frame), ins, pacing, 0);
  }
}
