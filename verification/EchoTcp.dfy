/** The TCP echo on the line: the connection table sees the whole machine's run as a run of its own, and the frames
    that leave carry its segments. */
module EchoTcp {
  import opened Bytes
  import opened Layout
  import opened Arp
  import opened Echo
  import opened EchoIntegrity
  import opened EchoRuns
  import D = Dhcp
  import Icmp
  import Ip
  import MacRx
  import MacTx
  import MacWire
  import Tcp
  import TcpEcho
  import TcpFrame
  import TcpTable
  import Udp

  // ---------------------------------------------------------------- one call

  function OneOrNone(out: Option<Tcp.Out>): seq<Tcp.Out> { if out.Some? then [out.value] else [] }

  /** Only TCP frames move the connection table. */
  lemma DispatchTable(t: Top, eth: u16, frame: seq<word>, junk: seq<byte>)
    requires Sized(t) && |frame| == FRAME_BUF_WORDS && Manageable(eth, frame) && |junk| == TcpFrame.SCRATCH
    ensures var ip := HeaderOfFrame(frame);
      Dispatch(t, eth, frame, junk).tcp ==
        if eth == ETHERTYPE_IPV4 && ip.valid && ip.protocol == Ip.PROTO_TCP
        then OnTcp(t, ip, frame, junk).tcp else t.tcp
  {
    hide Sized, OnTcp, Icmp.ReplyBuffer, Udp.AnswerBuffer, Udp.ParseArp, Udp.ParseUdp, Answer, AfterLookup, Learn,
         HeaderOfFrame, TcpFrame.LengthsFit;
  }

  lemma OnTcpTable(t: Top, ip: Ip.IpRx, frame: seq<word>, junk: seq<byte>)
    requires Sized(t) && |frame| == FRAME_BUF_WORDS && TcpFrame.LengthsFit(ip, frame) && |junk| == TcpFrame.SCRATCH
    ensures var s := TcpFrame.ParseSegment(ip, frame);
      && Tcp.ValidSegment(s) && s.peer.wscale <= 7 && Tcp.Valid(t.tcp) && Tcp.AllSound(t.tcp)
      && OnTcp(t, ip, frame, junk).tcp == Tcp.Receive(t.tcp, s).0
      && (Tcp.Receive(t.tcp, s).1.Some? ==> OnTcp(t, ip, frame, junk).req.request)
  {
    hide MacRx.Live, SaneTable, MacTx.Legal, Tcp.Receive, TcpFrame.SendBuffer, TcpFrame.ParseSegment, Answer,
         AfterLookup, TcpFrame.LengthsFit;
    TcpFrame.ParsedValid(ip, frame);
    ReceiveSendable(t.tcp, TcpFrame.ParseSegment(ip, frame));
  }

  /** What a received frame does to the table is what the segment in it does. */
  lemma FrameTable(t: Top, i: Input)
    requires Callable(t, i)
    ensures Tcp.Valid(t.tcp) && Tcp.AllSound(t.tcp)
    ensures Received(t, i).Some? ==>
      Tcp.ValidSegment(Received(t, i).value) && Received(t, i).value.peer.wscale <= 7
      && AfterFrame(t, i).tcp == Tcp.Receive(t.tcp, Received(t, i).value).0
      && (AnsweredNow(t, i).Some? ==> AfterFrame(t, i).req.request)
    ensures Received(t, i).None? ==> AfterFrame(t, i).tcp == t.tcp
  {
    hide MacTx.TxStep, MacRx.Pass, SaneTable, MacRx.Live, MacTx.Legal, Tcp.Receive, TcpFrame.ParseSegment, OnTcp,
         TcpFrame.LengthsFit, HeaderOfFrame, Arrived, FrameNow, Icmp.Answers, Udp.ParseUdp;
    MaintainSendable(t.tcp);
    if Arrived(t, i).Some? {
      var a, eth, frame := AfterMac(t, i), Arrived(t, i).value, FrameNow(t, i);
      DispatchTable(a, eth, frame, i.junk1);
      hide Dispatch;
      if Received(t, i).Some? {
        OnTcpTable(a, HeaderOfFrame(frame), frame, i.junk1);
      }
    }
  }

  /** The maintenance is the table's idle event. */
  lemma StepTable(t: Top, i: Input, pacing: nat)
    requires Callable(t, i)
    ensures Tcp.Valid(AfterFrame(t, i).tcp)
    ensures AtMaintenance(t, i, pacing).tcp == AfterFrame(t, i).tcp
    ensures AfterFrame(t, i).req.request ==> !Maintains(t, i, pacing)
    ensures Step(t, i, pacing).tcp ==
      if Maintains(t, i, pacing) then Tcp.Maintain(AfterFrame(t, i).tcp).0 else AfterFrame(t, i).tcp
  {
    hide AfterFrame, SaneTable, MacRx.Live, MacTx.Legal, Tcp.Maintain, D.TxStep, D.FrameBuffer, Udp.Choose,
         Udp.JobBuffer, Busy;
    MaintainSendable(AfterFrame(t, i).tcp);
  }

  /** One call is a short run of the table, and hands over what that run sends. */
  lemma CallIsTableRun(t: Top, i: Input, pacing: nat, tops: seq<nat>)
    requires Callable(t, i) && TcpTable.Inv(t.tcp, tops)
    ensures TcpTable.ValidEvents(Events(t, i, pacing))
    ensures var (v, _, outs) := TcpTable.Run(t.tcp, tops, Events(t, i, pacing));
      v == Step(t, i, pacing).tcp && outs == OneOrNone(Segment(t, i, pacing))
  {
    hide Step, AfterFrame, AtMaintenance, Maintains, Received, TcpTable.Good, TcpTable.Unique, Tcp.Receive,
         Tcp.Maintain, TcpTable.Peaks;
    FrameTable(t, i);
    StepTable(t, i, pacing);
    var evs := Events(t, i, pacing);
    if evs != [] {
      TcpTable.StepKeepsInv(t.tcp, evs[0], tops);
      var u, tops' := TcpTable.Step(t.tcp, evs[0]).0, TcpTable.Peaks(t.tcp, TcpTable.Step(t.tcp, evs[0]).0, tops);
      if |evs| == 2 {
        assert evs[1..] == [TcpTable.Idle];
        OneEvent(u, tops', TcpTable.Idle);
      } else {
        OneEvent(t.tcp, tops, evs[0]);
        assert evs == [evs[0]];
      }
    }
  }

  lemma OneEvent(t: Tcp.State, tops: seq<nat>, e: TcpTable.Event)
    requires TcpTable.Inv(t, tops) && TcpTable.ValidEvent(e)
    ensures Tcp.AllSound(t)
    ensures var (v, _, outs) := TcpTable.Run(t, tops, [e]);
      v == TcpTable.Step(t, e).0 && outs == OneOrNone(TcpTable.Step(t, e).1)
  {
    hide TcpTable.Step, TcpTable.Inv, TcpTable.Peaks;
    TcpTable.StepKeepsInv(t, e, tops);
    var es := [e];
    assert es[1..] == [];
  }

  predicate IsSegmentFrame(req: TxReq, mem: seq<word>, arp: Cache, o: Tcp.Out) {
    && TcpFrame.Sendable(o.flags, o.payload)
    && var s := TcpFrame.SegmentBytes(o.conn, o.flags, o.payload);
       && |mem| == BUFFER_DEPTH && req.request && req.ethertype == ETHERTYPE_IPV4
       && req.addr == TX_UDP_BASE && req.len == 20 + |s|
       && req.dst == (match Answer(arp, o.conn.peerIp) case Some(m) => m case None => BROADCAST_MAC)
       && TcpFrame.Packet(ReadBytes(mem, TX_UDP_BASE, 20 + |s|), o.conn.peerIp, s)
  }

  lemma PerformedFrame(t: Top, tcp: Tcp.State, o: Tcp.Out, junk: seq<byte>)
    requires Sized(t) && SaneTable(tcp) && |junk| == TcpFrame.SCRATCH && TcpFrame.Sendable(o.flags, o.payload)
    ensures var u := Performed(t, tcp, Some(o), junk); IsSegmentFrame(u.req, u.buffer, u.arp, o)
  {
    hide MacRx.Live, MacTx.Legal, TcpFrame.SegmentBytes, TcpFrame.SendBuffer, SaneTable, Answer, AfterLookup,
         TcpFrame.IpHeader, TcpFrame.Packet;
    TcpFrame.SendReads(t.buffer, o.conn, o.flags, o.payload, junk);
    AnswerAgain(t.arp, o.conn.peerIp);
  }

  lemma AnswerFrame(t: Top, i: Input)
    requires Callable(t, i) && AnsweredNow(t, i).Some?
    ensures IsSegmentFrame(AfterFrame(t, i).req, AfterFrame(t, i).buffer, AfterFrame(t, i).arp,
                           AnsweredNow(t, i).value)
  {
    hide MacTx.TxStep, Performed, TcpFrame.ParseSegment, SaneTable, MacRx.Live, MacRx.Pass, MacTx.Legal,
         TcpFrame.LengthsFit, Tcp.Receive, IsSegmentFrame, HeaderOfFrame, Arrived, FrameNow;
    var a, eth, frame := AfterMac(t, i), Arrived(t, i).value, FrameNow(t, i);
    var ip := HeaderOfFrame(frame);
    TcpFrame.ParsedValid(ip, frame);
    var s := TcpFrame.ParseSegment(ip, frame);
    ReceiveSendable(a.tcp, s);
    var (tcp, out) := Tcp.Receive(a.tcp, s);
    PerformedFrame(a, tcp, out.value, i.junk1);
  }

  lemma MaintenanceFrame(t: Top, i: Input, pacing: nat)
    requires Callable(t, i) && Maintains(t, i, pacing)
    ensures Tcp.Valid(AtMaintenance(t, i, pacing).tcp)
    ensures var out := Tcp.Maintain(AtMaintenance(t, i, pacing).tcp).1;
      out.Some? ==> IsSegmentFrame(Step(t, i, pacing).req, Step(t, i, pacing).buffer, Step(t, i, pacing).arp, out.value)
  {
    hide AfterFrame, Performed, SaneTable, MacRx.Live, MacTx.Legal, Tcp.Maintain, IsSegmentFrame, UdpTurn, DhcpTurn;
    var w := AtMaintenance(t, i, pacing);
    MaintainSendable(w.tcp);
    var (tcp, out) := Tcp.Maintain(w.tcp);
    if out.Some? {
      PerformedFrame(w, tcp, out.value, i.junk2);
    }
  }

  /** The frame of a gated reply is new: no request was waiting. */
  lemma AnswerIsNew(t: Top, i: Input)
    requires Callable(t, i) && Gated(t, i) && AnsweredNow(t, i).Some?
    ensures !AfterMac(t, i).req.request
  {
    hide MacTx.TxStep, MacRx.Pass, MacRx.Live, MacTx.Legal, SaneTable, TcpFrame.ParseSegment, HeaderOfFrame, Arrived,
         FrameNow, Tcp.Receive, TcpFrame.LengthsFit;
  }

  /** A segment handed over is the frame asked for, behind its IP header, and nothing else is asked for. */
  lemma SegmentIsAsked(t: Top, i: Input, pacing: nat)
    requires Callable(t, i) && Inv(t) && Gated(t, i) && Segment(t, i, pacing).Some?
    ensures var o := Segment(t, i, pacing).value;
      && TcpFrame.Sendable(o.flags, o.payload)
      && var s := TcpFrame.SegmentBytes(o.conn, o.flags, o.payload);
         |Asked(t, i, pacing)| == 1
         && Asked(t, i, pacing)[0].segment == Some(o)
         && CarriesSegment(Asked(t, i, pacing)[0])
  {
    hide Step, AfterFrame, AfterMac, AtMaintenance, Inv, Sized, AnsweredNow, Gated, TcpFrame.SegmentBytes,
         Tcp.Maintain, Maintains, TcpFrame.Packet, Answer;
    if AnsweredNow(t, i).Some? {
      AnswerFrame(t, i);
      AnswerStands(t, i, pacing);
      AnswerIsNew(t, i);
    } else {
      MaintenanceFrame(t, i, pacing);
      MaintenanceIsNew(t, i, pacing);
    }
  }

  lemma MaintenanceIsNew(t: Top, i: Input, pacing: nat)
    requires Callable(t, i) && Inv(t) && Gated(t, i) && Maintains(t, i, pacing)
    ensures !AfterMac(t, i).req.request
  {
    hide AfterMac, Inv, Gated, Sized, MacWire.WireOf, Inside, Rest, Busy;
    FrameOwes(t, i);
  }

  // ---------------------------------------------------------------- runs

  /** The table's events over a run of the machine. */
  ghost function AllEvents(t: Top, ins: seq<Input>, pacing: nat): seq<TcpTable.Event>
    requires GatedRun(t, ins, pacing)
    decreases |ins|
  {
    if ins == [] then [] else Events(t, ins[0], pacing) + AllEvents(Step(t, ins[0], pacing), ins[1..], pacing)
  }

  /** The segments among the frames asked for. */
  function Segments(jobs: seq<Job>): seq<Tcp.Out> {
    if jobs == [] then [] else OneOrNone(jobs[0].segment) + Segments(jobs[1..])
  }

  /** Every frame that carries a segment is a packet from the board to the connection's peer with that segment, sent to
      the MAC the cache answers for the peer, or broadcast if it answers none. */
  ghost predicate CarriesSegment(j: Job) {
    j.segment.Some? ==>
      var o := j.segment.value;
      && TcpFrame.Sendable(o.flags, o.payload)
      && var s := TcpFrame.SegmentBytes(o.conn, o.flags, o.payload);
         && TcpFrame.Packet(j.payload, o.conn.peerIp, s) && j.req.ethertype == ETHERTYPE_IPV4
         && j.req.dst == (if j.answer.Some? then j.answer.value else BROADCAST_MAC)
  }

  lemma {:induction false} TableRunAppend(t: Tcp.State, tops: seq<nat>, a: seq<TcpTable.Event>, b: seq<TcpTable.Event>)
    requires TcpTable.Inv(t, tops) && TcpTable.ValidEvents(a) && TcpTable.ValidEvents(b)
    ensures TcpTable.ValidEvents(a + b)
    ensures var (u, tops1, outs1) := TcpTable.Run(t, tops, a);
      var (v, tops2, outs2) := TcpTable.Run(u, tops1, b);
      TcpTable.Run(t, tops, a + b) == (v, tops2, outs1 + outs2)
    decreases |a|
  {
    hide TcpTable.Step, TcpTable.Good, TcpTable.Unique, TcpTable.Peaks, TcpTable.ValidEvent;
    if a == [] {
      assert a + b == b;
      var r := TcpTable.Run(t, tops, b);
      assert [] + r.2 == r.2;
    } else {
      TcpTable.StepKeepsInv(t, a[0], tops);
      var (u, out) := TcpTable.Step(t, a[0]);
      var tops' := TcpTable.Peaks(t, u, tops);
      TableRunAppend(u, tops', a[1..], b);
      assert (a + b)[1..] == a[1..] + b;
      var o := OneOrNone(out);
      var (w, p, x) := TcpTable.Run(u, tops', a[1..]);
      var y := TcpTable.Run(w, p, b).2;
      assert (o + x) + y == o + (x + y);
    }
  }

  lemma {:induction false} SegmentsAppend(a: seq<Job>, b: seq<Job>)
    ensures Segments(a + b) == Segments(a) + Segments(b)
    decreases |a|
  {
    if a == [] {
      assert a + b == b;
    } else {
      assert (a + b)[1..] == a[1..] + b;
      SegmentsAppend(a[1..], b);
    }
  }

  /** One call: the segments among the frames asked for are the segment handed over. */
  lemma CallSegments(t: Top, i: Input, pacing: nat)
    requires Callable(t, i) && Inv(t) && Gated(t, i)
    ensures Segments(Asked(t, i, pacing)) == OneOrNone(Segment(t, i, pacing))
    ensures forall k :: 0 <= k < |Asked(t, i, pacing)| ==> CarriesSegment(Asked(t, i, pacing)[k])
  {
    hide Step, AfterMac, Inv, Sized, Callable, Gated, Segment, TcpFrame.SegmentBytes, TcpFrame.Packet;
    if Segment(t, i, pacing).Some? {
      SegmentIsAsked(t, i, pacing);
    }
    var j := Asked(t, i, pacing);
    if j != [] {
      assert j[1..] == [] && Segments(j[1..]) == [];
    }
  }

  /** The machine's run is a run of the connection table, and the segments that run sends are those in the frames
      asked for, in order and none besides. */
  lemma {:induction false} TableRun(t: Top, ins: seq<Input>, pacing: nat, tops: seq<nat>)
    requires Inv(t) && GatedRun(t, ins, pacing) && TcpTable.Inv(t.tcp, tops)
    ensures TcpTable.ValidEvents(AllEvents(t, ins, pacing))
    ensures var (v, _, outs) := TcpTable.Run(t.tcp, tops, AllEvents(t, ins, pacing));
      v == After(t, ins, pacing).tcp && outs == Segments(AllAsked(t, ins, pacing))
    ensures forall k :: 0 <= k < |AllAsked(t, ins, pacing)| ==> CarriesSegment(AllAsked(t, ins, pacing)[k])
    decreases |ins|
  {
    hide Step, Inv, Sized, Callable, Gated, Segment, Asked, Events, CarriesSegment, TcpTable.Inv, TcpTable.ValidEvent,
         Segments;
    if ins == [] {
      NoSegments();
      assert TcpTable.Run(t.tcp, tops, []) == (t.tcp, tops, []);
    } else {
      var i, u := ins[0], Step(t, ins[0], pacing);
      CallOwes(t, i, pacing);
      CallIsTableRun(t, i, pacing, tops);
      CallSegments(t, i, pacing);
      var tops' := TcpTable.Run(t.tcp, tops, Events(t, i, pacing)).1;
      TableRun(u, ins[1..], pacing, tops');
      TableRunAppend(t.tcp, tops, Events(t, i, pacing), AllEvents(u, ins[1..], pacing));
      SegmentsAppend(Asked(t, i, pacing), AllAsked(u, ins[1..], pacing));
    }
  }

  lemma NoSegments()
    ensures Segments([]) == []
  {
  }

  /** The connection stays established and every addition to the queue is owned. */
  ghost predicate OwnedRun(t: Top, ins: seq<Input>, pacing: nat, tops: seq<nat>, cid: nat)
    requires Inv(t) && GatedRun(t, ins, pacing) && TcpTable.Inv(t.tcp, tops) && cid < Tcp.MAX_CONN
  {
    TableRun(t, ins, pacing, tops);
    && TcpEcho.AllOwned(t.tcp, tops, AllEvents(t, ins, pacing))
    && TcpEcho.StaysEstablished(t.tcp, tops, AllEvents(t, ins, pacing), cid)
  }

  /** The echo, end to end. In any run whose received frames are clear of the frames under way, for a connection that
      starts established with nothing parked and stays established, with every addition to the queue owned: the line
      is what was owed and the frames asked for, up to what is still to be written; the segments among them, each
      whole behind an IP header, carry the accepted bytes at the offsets their sequence numbers say; and together
      they carry every accepted byte but those still parked. */
  lemma EchoOnLine(t: Top, ins: seq<Input>, pacing: nat, tops: seq<nat>, cid: nat)
    requires Inv(t) && GatedRun(t, ins, pacing) && TcpTable.Inv(t.tcp, tops) && cid < Tcp.MAX_CONN
    requires OwnedRun(t, ins, pacing, tops, cid) && TcpEcho.ParkedFor(t.tcp, cid) == []
    ensures TcpTable.ValidEvents(AllEvents(t, ins, pacing))
    ensures var jobs, u := AllAsked(t, ins, pacing), After(t, ins, pacing);
      var stream := TcpEcho.Accepted(t.tcp, tops, AllEvents(t, ins, pacing), cid);
      && Tcp.Valid(u.tcp)
      && Rest(t) + Frames(jobs) == Line(t, ins, pacing) + Rest(u)
      && (forall k :: 0 <= k < |jobs| ==> CarriesSegment(jobs[k]))
      && TcpEcho.Carries(Segments(jobs), cid, t.tcp.conns[cid].sndSeq, stream, 0)
      && stream == TcpEcho.Sent(Segments(jobs), cid) + TcpEcho.ParkedFor(u.tcp, cid)
  {
    hide Inv, Sized, AllAsked, Frames, Line, Rest, After, CarriesSegment, TcpEcho.Carries, TcpEcho.Sent,
         TcpEcho.Accepted, TcpEcho.AllOwned, TcpEcho.StaysEstablished, Segments, AllEvents;
    FramesOnLine(t, ins, pacing);
    TableRun(t, ins, pacing, tops);
    TcpEcho.EchoRefinement(t.tcp, tops, AllEvents(t, ins, pacing), cid);
  }
}
