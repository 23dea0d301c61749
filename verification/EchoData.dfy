/** The TCP echo from conditions on the received frames alone: while one connection sends data, established connections
    acknowledge, and everything else is ignored, all hypotheses of the echo theorem hold. */
module EchoData {
  import opened Bytes
  import opened Layout
  import opened Echo
  import opened EchoIntegrity
  import opened EchoRuns
  import opened EchoTcp
  import Icmp
  import Igmp
  import Ip
  import MacRx
  import MacTx
  import Tcp
  import TcpEcho
  import TcpFrame
  import TcpTable
  import Udp

  // ---------------------------------------------------------------- received frames

  /** The peer of slot k at the outset, if that connection was established. */
  predicate Peer(conns: seq<Tcp.Conn>, k: nat, s: Tcp.Segment) {
    k < |conns| && conns[k].st == Tcp.Established && Tcp.Matches(conns[k], s.srcPort, s.srcIp)
  }

  /** A segment from the peer of an established connection, without FIN, with payload only on connection cid. */
  ghost predicate EchoSegment(conns: seq<Tcp.Conn>, cid: nat, s: Tcp.Segment) {
    && s.dstPort == Tcp.ECHO_PORT && !Tcp.HasFin(s.flags)
    && exists k :: Peer(conns, k, s) && (s.payload != [] ==> k == cid)
  }

  /** Frames that make the stack send and capture nothing: other ethertypes, ARP but for questions about the board,
      datagrams not for the board or damaged, unknown protocols, messages other than echo requests and group queries
      that concern the board, datagrams and segments to other ports. */
  predicate Ignored(eth: u16, frame: seq<word>)
    requires |frame| == FRAME_BUF_WORDS
  {
    var ip := HeaderOfFrame(frame);
    && (eth == ETHERTYPE_ARP ==> !Udp.Asks(Udp.ParseArp(frame)))
    && (eth == ETHERTYPE_IPV4 && ip.valid ==>
          && (ip.protocol == Ip.PROTO_ICMP ==> !Icmp.Answers(frame))
          && (ip.protocol == Ip.PROTO_IGMP ==> !Igmp.Asked(frame))
          && (ip.protocol == Ip.PROTO_UDP ==> !Udp.ParseUdp(frame).valid)
          && (ip.protocol == Ip.PROTO_TCP ==> TcpFrame.DstPort(frame) != Tcp.ECHO_PORT))
  }

  ghost predicate EchoFrame(conns: seq<Tcp.Conn>, cid: nat, eth: u16, frame: seq<word>)
    requires |frame| == FRAME_BUF_WORDS
  {
    var ip := HeaderOfFrame(frame);
    || Ignored(eth, frame)
    || (eth == ETHERTYPE_IPV4 && ip.valid && ip.protocol == Ip.PROTO_TCP && TcpFrame.LengthsFit(ip, frame)
        && EchoSegment(conns, cid, TcpFrame.ParseSegment(ip, frame)))
  }

  /** Inputs whose bytes make up only such frames; nothing but the receive channel is looked at. */
  ghost predicate EchoInputs(ch: MacRx.Channel, ins: seq<Input>, conns: seq<Tcp.Conn>, cid: nat)
    decreases |ins|
  {
    && MacRx.Live(ch)
    && (ins == [] ||
        var (c, a) := MacRx.Pass(ch, true, ins[0].beat);
        && ValidInput(ins[0])
        && (a.Some? ==> EchoFrame(conns, cid, a.value.info.ethertype, c.frame))
        && EchoInputs(c, ins[1..], conns, cid))
  }

  // ---------------------------------------------------------------- one event

  /** The established connections of the outset still are, with their peers, and the queue is empty or cid's. */
  predicate Steady(conns: seq<Tcp.Conn>, cid: nat, t: Tcp.State) {
    && Tcp.Valid(t) && |conns| == Tcp.MAX_CONN && cid < Tcp.MAX_CONN && conns[cid].st == Tcp.Established
    && (forall k :: 0 <= k < Tcp.MAX_CONN && conns[k].st == Tcp.Established ==> Keeps(conns[k], t.conns[k]))
    && (t.qLen == t.qOff || t.qCid == cid)
  }

  predicate Keeps(a: Tcp.Conn, b: Tcp.Conn) {
    b.st == Tcp.Established && b.peerPort == a.peerPort && b.peerIp == a.peerIp
  }

  /** Events of such runs: nothing for the echo port, a segment of an established connection, or an idle pass. */
  ghost predicate EchoEvent(conns: seq<Tcp.Conn>, cid: nat, e: TcpTable.Event) {
    TcpTable.ValidEvent(e) && (e.Rx? ==> e.seg.dstPort != Tcp.ECHO_PORT || EchoSegment(conns, cid, e.seg))
  }

  lemma PeerHandled(conns: seq<Tcp.Conn>, cid: nat, t: Tcp.State, tops: seq<nat>, s: Tcp.Segment, k: nat)
    requires Steady(conns, cid, t) && TcpTable.Inv(t, tops) && Peer(conns, k, s) && s.dstPort == Tcp.ECHO_PORT
    ensures TcpTable.Handled(t, s) == Some(k) && t.conns[k].st == Tcp.Established
  {
    hide Tcp.Find, TcpTable.Good;
    TcpTable.FindSpec(t.conns, s.srcPort, s.srcIp);
    assert Keeps(conns[k], t.conns[k]);
    assert Tcp.Matches(t.conns[k], s.srcPort, s.srcIp);
  }

  lemma SegmentSteady(conns: seq<Tcp.Conn>, cid: nat, t: Tcp.State, tops: seq<nat>, s: Tcp.Segment, k: nat)
    requires Steady(conns, cid, t) && TcpTable.Inv(t, tops) && TcpTable.ValidEvent(TcpTable.Rx(s))
    requires Peer(conns, k, s) && s.dstPort == Tcp.ECHO_PORT && !Tcp.HasFin(s.flags) && (s.payload != [] ==> k == cid)
    ensures Tcp.AllSound(t) && Steady(conns, cid, Tcp.Receive(t, s).0)
    ensures TcpEcho.Owned(t, TcpTable.Rx(s))
  {
    hide TcpTable.Handled, TcpTable.Good, TcpTable.Unique, Tcp.Noted, Tcp.Find;
    PeerHandled(conns, cid, t, tops, s, k);
    TcpTable.StepKeepsInv(t, TcpTable.Rx(s), tops);
    TcpTable.ReceiveForm(t, s);
    TcpTable.NotedKeeps(t.conns[k], s);
    var u := Tcp.Receive(t, s).0;
    forall j | 0 <= j < Tcp.MAX_CONN && conns[j].st == Tcp.Established ensures Keeps(conns[j], u.conns[j]) {
      assert Keeps(conns[j], t.conns[j]);
    }
  }

  /** Each such event keeps things steady and adds only to a queue that is empty or its own. */
  lemma EventSteady(conns: seq<Tcp.Conn>, cid: nat, t: Tcp.State, tops: seq<nat>, e: TcpTable.Event)
    requires Steady(conns, cid, t) && TcpTable.Inv(t, tops) && EchoEvent(conns, cid, e)
    ensures Tcp.AllSound(t) && TcpEcho.Owned(t, e) && Steady(conns, cid, TcpTable.Step(t, e).0)
  {
    hide TcpTable.Good, TcpTable.Unique;
    TcpTable.StepKeepsInv(t, e, tops);
    if e.Rx? && e.seg.dstPort == Tcp.ECHO_PORT {
      var k :| Peer(conns, k, e.seg) && (e.seg.payload != [] ==> k == cid);
      SegmentSteady(conns, cid, t, tops, e.seg, k);
    }
  }

  // ---------------------------------------------------------------- runs of events

  lemma {:induction false} EventsSteady(conns: seq<Tcp.Conn>, cid: nat, t: Tcp.State, tops: seq<nat>,
      es: seq<TcpTable.Event>)
    requires Steady(conns, cid, t) && TcpTable.Inv(t, tops)
        && forall i :: 0 <= i < |es| ==> EchoEvent(conns, cid, es[i])
    ensures TcpTable.ValidEvents(es) && TcpEcho.AllOwned(t, tops, es) && TcpEcho.StaysEstablished(t, tops, es, cid)
    ensures Steady(conns, cid, TcpTable.Run(t, tops, es).0)
    decreases |es|
  {
    hide TcpTable.Step, TcpTable.Good, TcpTable.Unique, TcpTable.Peaks, TcpEcho.Owned;
    assert Keeps(conns[cid], t.conns[cid]);
    if es != [] {
      assert EchoEvent(conns, cid, es[0]);
      EventSteady(conns, cid, t, tops, es[0]);
      TcpTable.StepKeepsInv(t, es[0], tops);
      var u := TcpTable.Step(t, es[0]).0;
      EventsSteady(conns, cid, u, TcpTable.Peaks(t, u, tops), es[1..]);
    }
  }

  // ---------------------------------------------------------------- one call

  /** The receive channel evolves by itself. */
  lemma ChannelAlone(t: Top, i: Input, pacing: nat)
    requires Callable(t, i)
    ensures Step(t, i, pacing).ch == MacRx.Pass(t.ch, true, i.beat).0
  {
    hide MacTx.TxStep, MacRx.Pass, Sized, Dispatch, Builders;
  }

  /** A call that completes such a frame, or none, can be made and is clear. */
  lemma EchoCall(t: Top, i: Input, pacing: nat, tops: seq<nat>, conns: seq<Tcp.Conn>, cid: nat)
    requires Sized(t) && ValidInput(i) && TcpTable.Inv(t.tcp, tops) && Steady(conns, cid, t.tcp)
    requires Arrived(t, i).Some? ==> EchoFrame(conns, cid, Arrived(t, i).value, FrameNow(t, i))
    ensures Callable(t, i) && Gated(t, i)
    ensures forall k :: 0 <= k < |Events(t, i, pacing)| ==> EchoEvent(conns, cid, Events(t, i, pacing)[k])
  {
    hide Sized, Arrived, FrameNow, HeaderOfFrame, Maintains, Steady, TcpTable.Inv, TcpFrame.ParseSegment,
         TcpFrame.LengthsFit;
    if Arrived(t, i).Some? {
      var eth, frame := Arrived(t, i).value, FrameNow(t, i);
      EchoFrameFits(conns, cid, eth, frame);
      EchoFrameClear(t.tcp, tops, conns, cid, eth, frame);
    }
    ReceivedEvent(t, i, conns, cid);
  }

  lemma EchoFrameFits(conns: seq<Tcp.Conn>, cid: nat, eth: u16, frame: seq<word>)
    requires |frame| == FRAME_BUF_WORDS && EchoFrame(conns, cid, eth, frame)
    ensures Manageable(eth, frame)
  {
    hide HeaderOfFrame, EchoSegment;
  }

  lemma EchoFrameClear(tcp: Tcp.State, tops: seq<nat>, conns: seq<Tcp.Conn>, cid: nat, eth: u16, frame: seq<word>)
    requires |frame| == FRAME_BUF_WORDS && EchoFrame(conns, cid, eth, frame) && Manageable(eth, frame)
    requires TcpTable.Inv(tcp, tops) && Steady(conns, cid, tcp) && SaneTable(tcp)
    ensures EffectOf(tcp, eth, frame) == Nothing
  {
    hide HeaderOfFrame, TcpTable.Inv, Steady, TcpFrame.LengthsFit, Answered, TcpTable.Handled;
    var ip := HeaderOfFrame(frame);
    if eth == ETHERTYPE_IPV4 && ip.valid && ip.protocol == Ip.PROTO_TCP {
      AnsweredIff(tcp, tops, ip, frame);
      var s := TcpFrame.ParseSegment(ip, frame);
      if s.dstPort == Tcp.ECHO_PORT {
        var k :| Peer(conns, k, s) && (s.payload != [] ==> k == cid);
        PeerHandled(conns, cid, tcp, tops, s, k);
      } else {
        OtherPort(tcp, s, tops);
      }
    }
  }

  lemma OtherPort(tcp: Tcp.State, s: Tcp.Segment, tops: seq<nat>)
    requires TcpTable.Inv(tcp, tops) && s.dstPort != Tcp.ECHO_PORT
    ensures Tcp.Valid(tcp) && TcpTable.Handled(tcp, s) == None
  {
  }

  lemma ReceivedEvent(t: Top, i: Input, conns: seq<Tcp.Conn>, cid: nat)
    requires Callable(t, i)
    requires Arrived(t, i).Some? ==> EchoFrame(conns, cid, Arrived(t, i).value, FrameNow(t, i))
    ensures Received(t, i).Some? ==> EchoEvent(conns, cid, TcpTable.Rx(Received(t, i).value))
  {
    hide Sized, Arrived, FrameNow, HeaderOfFrame, TcpFrame.LengthsFit;
    if Received(t, i).Some? {
      TcpFrame.ParsedValid(HeaderOfFrame(FrameNow(t, i)), FrameNow(t, i));
    }
  }

  // ---------------------------------------------------------------- runs

  lemma {:induction false} EchoRun(t: Top, ins: seq<Input>, pacing: nat, tops: seq<nat>, conns: seq<Tcp.Conn>, cid: nat)
    requires Inv(t) && TcpTable.Inv(t.tcp, tops) && Steady(conns, cid, t.tcp) && EchoInputs(t.ch, ins, conns, cid)
    ensures GatedRun(t, ins, pacing)
    ensures forall k :: 0 <= k < |AllEvents(t, ins, pacing)| ==> EchoEvent(conns, cid, AllEvents(t, ins, pacing)[k])
    decreases |ins|
  {
    hide Sized, Inv, Steady, EchoFrame, EchoEvent, Step, Events, TcpTable.Inv, Gated, Callable, MacRx.Pass,
         MacRx.Live, EchoInputs, Arrived, FrameNow, TcpTable.Run, TcpTable.ValidEvents, Segment, OneOrNone,
         TcpEcho.AllOwned, TcpEcho.StaysEstablished;
    SizedNow(t);
    if ins != [] {
      var i := ins[0];
      HeadCall(t, ins, conns, cid);
      EchoCall(t, i, pacing, tops, conns, cid);
      CallOwes(t, i, pacing);
      CallIsTableRun(t, i, pacing, tops);
      EventsSteady(conns, cid, t.tcp, tops, Events(t, i, pacing));
      ChannelAlone(t, i, pacing);
      var u := Step(t, i, pacing);
      EchoRun(u, ins[1..], pacing, TcpTable.Run(t.tcp, tops, Events(t, i, pacing)).1, conns, cid);
    }
  }

  lemma HeadCall(t: Top, ins: seq<Input>, conns: seq<Tcp.Conn>, cid: nat)
    requires Sized(t) && ins != [] && EchoInputs(t.ch, ins, conns, cid)
    ensures ValidInput(ins[0]) && EchoInputs(MacRx.Pass(t.ch, true, ins[0].beat).0, ins[1..], conns, cid)
    ensures Arrived(t, ins[0]).Some? ==> EchoFrame(conns, cid, Arrived(t, ins[0]).value, FrameNow(t, ins[0]))
  {
    hide EchoFrame, MacRx.Pass;
  }

  /** The echo, end to end, from what is received: a connection is established and the queue empty; from then on come
      only frames the stack ignores and segments of established connections without FIN, with payload on that
      connection alone. Then the wire carries the frames asked for, the segments among them carry the accepted bytes
      at the offsets their numbers say, and together every accepted byte but those still parked. */
  lemma EchoFromFrames(t: Top, ins: seq<Input>, pacing: nat, tops: seq<nat>, cid: nat)
    requires Inv(t) && TcpTable.Inv(t.tcp, tops) && cid < Tcp.MAX_CONN && t.tcp.conns[cid].st == Tcp.Established
    requires t.tcp.qLen == t.tcp.qOff && EchoInputs(t.ch, ins, t.tcp.conns, cid)
    ensures GatedRun(t, ins, pacing) && TcpTable.ValidEvents(AllEvents(t, ins, pacing))
    ensures var jobs, u := AllAsked(t, ins, pacing), After(t, ins, pacing);
      var stream := TcpEcho.Accepted(t.tcp, tops, AllEvents(t, ins, pacing), cid);
      && Tcp.Valid(u.tcp)
      && Rest(t) + Frames(jobs) == Line(t, ins, pacing) + Rest(u)
      && (forall k :: 0 <= k < |jobs| ==> CarriesSegment(jobs[k]))
      && TcpEcho.Carries(Segments(jobs), cid, t.tcp.conns[cid].sndSeq, stream, 0)
      && stream == TcpEcho.Sent(Segments(jobs), cid) + TcpEcho.ParkedFor(u.tcp, cid)
  {
    hide Inv, Sized, AllAsked, Frames, Line, Rest, After, CarriesSegment, TcpEcho.Carries, TcpEcho.Sent,
         TcpEcho.Accepted, TcpEcho.AllOwned, TcpEcho.StaysEstablished, Segments, AllEvents, EchoInputs, TcpTable.Good,
         TcpTable.Unique;
    assert Steady(t.tcp.conns, cid, t.tcp);
    EchoRun(t, ins, pacing, tops, t.tcp.conns, cid);
    EventsSteady(t.tcp.conns, cid, t.tcp, tops, AllEvents(t, ins, pacing));
    assert TcpEcho.ParkedFor(t.tcp, cid) == [];
    EchoOnLine(t, ins, pacing, tops, cid);
  }
}
