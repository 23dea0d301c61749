/** Every byte comes back: when no more than a buffer's worth of data arrives between pauses, nothing is dropped, and
    the segments on the wire carry exactly the bytes received. */
module EchoWhole {
  import opened Bytes
  import opened Layout
  import opened Echo
  import opened EchoIntegrity
  import opened EchoRuns
  import opened EchoTcp
  import opened EchoData
  import opened EchoLive
  import Ip
  import MacRx
  import Tcp
  import TcpEcho
  import TcpFrame
  import TcpTable

  // ---------------------------------------------------------------- the table

  /** How much of the send buffer is used up. */
  function Fill(t: Tcp.State): nat { if t.qLen == t.qOff then 0 else t.qLen }

  function OfferedBy(e: TcpTable.Event): seq<byte> {
    if e.Rx? && e.seg.dstPort == Tcp.ECHO_PORT then e.seg.payload else []
  }

  /** The payloads received for the echo port. */
  function Offered(es: seq<TcpTable.Event>): seq<byte> {
    if es == [] then [] else OfferedBy(es[0]) + Offered(es[1..])
  }

  lemma {:induction false} OfferedJoin(a: seq<TcpTable.Event>, b: seq<TcpTable.Event>)
    ensures Offered(a + b) == Offered(a) + Offered(b)
    decreases |a|
  {
    if a == [] {
      assert a + b == b;
    } else {
      assert (a + b)[1..] == a[1..] + b;
      OfferedJoin(a[1..], b);
    }
  }

  lemma QueueFill(t: Tcp.State, i: nat, p: seq<byte>)
    requires Tcp.Valid(t) && i < Tcp.MAX_CONN && Fill(t) + |p| <= Tcp.SEND_BUF
    ensures Fill(Tcp.Queue(t, i, p)) <= Fill(t) + |p| && p[..Tcp.Room(t, p)] == p
  {
  }

  lemma SegmentAccepts(conns: seq<Tcp.Conn>, cid: nat, t: Tcp.State, tops: seq<nat>, s: Tcp.Segment, k: nat)
    requires Steady(conns, cid, t) && TcpTable.Inv(t, tops) && TcpTable.ValidEvent(TcpTable.Rx(s))
    requires Peer(conns, k, s) && s.dstPort == Tcp.ECHO_PORT && !Tcp.HasFin(s.flags) && (s.payload != [] ==> k == cid)
    requires Fill(t) + |s.payload| <= Tcp.SEND_BUF
    ensures Tcp.AllSound(t) && TcpEcho.AcceptedBy(t, TcpTable.Rx(s), cid) == s.payload
    ensures Fill(Tcp.Receive(t, s).0) <= Fill(t) + |s.payload|
  {
    hide TcpTable.Handled, TcpTable.Good, TcpTable.Unique, Tcp.Noted, Tcp.Find, Tcp.Queue, Fill, Tcp.Room, Steady;
    SteadyValid(conns, cid, t);
    PeerHandled(conns, cid, t, tops, s, k);
    TcpTable.StepKeepsInv(t, TcpTable.Rx(s), tops);
    TcpTable.ReceiveForm(t, s);
    TcpTable.NotedKeeps(t.conns[k], s);
    QueueFill(t, k, s.payload);
    var b := TcpTable.Before(t, s, k);
    var c := b.(peerSeq := NextExpected(s));
    FillIgnores(t, t.(conns := t.conns[k := b][k := c]));
    QueueFill(t.(conns := t.conns[k := b][k := c]), k, s.payload);
  }

  function NextExpected(s: Tcp.Segment): word { Tcp.Plus(s.seqNo, |s.payload| + if Tcp.HasFin(s.flags) then 1 else 0) }

  lemma FillIgnores(t: Tcp.State, u: Tcp.State)
    requires t.qLen == u.qLen && t.qOff == u.qOff
    ensures Fill(t) == Fill(u)
  {
  }

  lemma SteadyValid(conns: seq<Tcp.Conn>, cid: nat, t: Tcp.State)
    requires Steady(conns, cid, t)
    ensures Tcp.Valid(t) && |conns| == Tcp.MAX_CONN
  {
  }

  /** What fits behind the queue is accepted whole, and no event uses up more than it brings. */
  lemma EventAccepts(conns: seq<Tcp.Conn>, cid: nat, t: Tcp.State, tops: seq<nat>, e: TcpTable.Event)
    requires Steady(conns, cid, t) && TcpTable.Inv(t, tops) && EchoEvent(conns, cid, e)
    requires Fill(t) + |OfferedBy(e)| <= Tcp.SEND_BUF
    ensures Tcp.AllSound(t) && TcpEcho.AcceptedBy(t, e, cid) == OfferedBy(e)
    ensures Fill(TcpTable.Step(t, e).0) <= Fill(t) + |OfferedBy(e)|
  {
    hide TcpTable.Good, TcpTable.Unique, Tcp.Find, TcpTable.Handled, Steady;
    SteadyValid(conns, cid, t);
    TcpTable.StepKeepsInv(t, e, tops);
    if e.Rx? && e.seg.dstPort == Tcp.ECHO_PORT {
      hide Tcp.Receive, Fill, TcpEcho.AcceptedBy;
      var k :| Peer(conns, k, e.seg) && (e.seg.payload != [] ==> k == cid);
      SegmentAccepts(conns, cid, t, tops, e.seg, k);
    } else if e.Rx? {
      OtherPort(t, e.seg, tops);
      TcpTable.ReceiveForm(t, e.seg);
    }
  }

  lemma {:induction false} EventsAccept(conns: seq<Tcp.Conn>, cid: nat, t: Tcp.State, tops: seq<nat>,
                                        es: seq<TcpTable.Event>)
    requires Steady(conns, cid, t) && TcpTable.Inv(t, tops)
    requires forall k :: 0 <= k < |es| ==> EchoEvent(conns, cid, es[k])
    requires Fill(t) + |Offered(es)| <= Tcp.SEND_BUF
    ensures TcpTable.ValidEvents(es) && TcpEcho.Accepted(t, tops, es, cid) == Offered(es)
    decreases |es|
  {
    hide TcpTable.Step, TcpTable.Good, TcpTable.Unique, TcpTable.Peaks, Steady, EchoEvent, Fill, OfferedBy,
         TcpEcho.AcceptedBy, TcpEcho.AllOwned, TcpEcho.StaysEstablished, TcpTable.Run;
    EventsSteady(conns, cid, t, tops, es);
    if es != [] {
      EventAccepts(conns, cid, t, tops, es[0]);
      EventSteady(conns, cid, t, tops, es[0]);
      TcpTable.StepKeepsInv(t, es[0], tops);
      var u := TcpTable.Step(t, es[0]).0;
      EventsAccept(conns, cid, u, TcpTable.Peaks(t, u, tops), es[1..]);
    }
  }

  lemma {:induction false} AcceptedJoin(t: Tcp.State, tops: seq<nat>, a: seq<TcpTable.Event>, b: seq<TcpTable.Event>,
                                        cid: nat)
    requires TcpTable.Inv(t, tops) && TcpTable.ValidEvents(a) && TcpTable.ValidEvents(b)
    ensures TcpTable.ValidEvents(a + b)
    ensures var (u, tops', _) := TcpTable.Run(t, tops, a);
      TcpEcho.Accepted(t, tops, a + b, cid) == TcpEcho.Accepted(t, tops, a, cid) + TcpEcho.Accepted(u, tops', b, cid)
    decreases |a|
  {
    hide TcpTable.Step, TcpTable.Good, TcpTable.Unique, TcpTable.Peaks, TcpTable.ValidEvent, TcpEcho.AcceptedBy;
    if a == [] {
      assert a + b == b;
    } else {
      assert (a + b)[1..] == a[1..] + b;
      TcpTable.StepKeepsInv(t, a[0], tops);
      var u := TcpTable.Step(t, a[0]).0;
      var p := TcpTable.Peaks(t, u, tops);
      AcceptedJoin(u, p, a[1..], b, cid);
      var v := TcpTable.Run(u, p, a[1..]);
      var x, y, z := TcpEcho.AcceptedBy(t, a[0], cid), TcpEcho.Accepted(u, p, a[1..], cid),
                     TcpEcho.Accepted(v.0, v.1, b, cid);
      assert (x + y) + z == x + (y + z);
    }
  }

  // ---------------------------------------------------------------- the bytes received

  /** The payload of a staged frame, if it is a segment for the echo port. */
  function PayloadIn(eth: u16, frame: seq<word>): seq<byte>
    requires |frame| == FRAME_BUF_WORDS
  {
    var ip := HeaderOfFrame(frame);
    if eth == ETHERTYPE_IPV4 && ip.valid && ip.protocol == Ip.PROTO_TCP && TcpFrame.LengthsFit(ip, frame)
    then TcpFrame.PayloadOf(ip, frame) else []
  }

  function BroughtBy(c: MacRx.Channel, a: Option<MacRx.Arrival>): seq<byte>
    requires MacRx.Live(c)
  {
    if a.Some? then PayloadIn(a.value.info.ethertype, c.frame) else []
  }

  /** The payload bytes the inputs bring for the echo port; nothing but the receive channel is looked at. */
  function Brought(ch: MacRx.Channel, ins: seq<Input>): seq<byte>
    requires MacRx.Live(ch)
    decreases |ins|
  {
    if ins == [] then []
    else
      var (c, a) := MacRx.Pass(ch, true, ins[0].beat);
      BroughtBy(c, a) + Brought(c, ins[1..])
  }

  function ChannelAfter(ch: MacRx.Channel, ins: seq<Input>): (c: MacRx.Channel)
    requires MacRx.Live(ch)
    ensures MacRx.Live(c)
    decreases |ins|
  {
    if ins == [] then ch else ChannelAfter(MacRx.Pass(ch, true, ins[0].beat).0, ins[1..])
  }

  /** One call's events offer what its frame brings. */
  lemma CallOffers(t: Top, i: Input, pacing: nat)
    requires Callable(t, i)
    ensures MacRx.Live(t.ch)
    ensures var (c, a) := MacRx.Pass(t.ch, true, i.beat); Offered(Events(t, i, pacing)) == BroughtBy(c, a)
  {
    hide Maintains, MacRx.Pass, HeaderOfFrame, TcpFrame.LengthsFit, TcpFrame.PayloadOf, MacRx.Live;
    LiveNow(t);
    FramePayload(t, i);
    var es, p := Events(t, i, pacing), BroughtBy(MacRx.Pass(t.ch, true, i.beat).0, MacRx.Pass(t.ch, true, i.beat).1);
    var rx: seq<TcpTable.Event> := if Received(t, i).Some? then [TcpTable.Rx(Received(t, i).value)] else [];
    var idle := if Maintains(t, i, pacing) then [TcpTable.Idle] else [];
    OfferedJoin(rx, idle);
    assert p + [] == p;
  }

  lemma LiveNow(t: Top)
    requires Sized(t)
    ensures MacRx.Live(t.ch)
  {
  }

  lemma FramePayload(t: Top, i: Input)
    requires Callable(t, i) && MacRx.Live(t.ch)
    ensures var (c, a) := MacRx.Pass(t.ch, true, i.beat);
      BroughtBy(c, a) == if Received(t, i).Some? then OfferedBy(TcpTable.Rx(Received(t, i).value)) else []
  {
    hide MacRx.Pass, HeaderOfFrame, TcpFrame.PeerOf, MacRx.Live, SaneTable;
  }

  /** The events of a run offer what its inputs bring. */
  lemma {:induction false} RunOffers(t: Top, ins: seq<Input>, pacing: nat)
    requires Inv(t) && GatedRun(t, ins, pacing)
    ensures MacRx.Live(t.ch) && Offered(AllEvents(t, ins, pacing)) == Brought(t.ch, ins)
    ensures After(t, ins, pacing).ch == ChannelAfter(t.ch, ins)
    decreases |ins|
  {
    hide Step, Inv, Sized, Callable, Gated, Events, MacRx.Pass, MacRx.Live, BroughtBy;
    LiveNow(t);
    if ins != [] {
      var i, u := ins[0], Step(t, ins[0], pacing);
      CallOffers(t, i, pacing);
      CallOwes(t, i, pacing);
      ChannelAlone(t, i, pacing);
      RunOffers(u, ins[1..], pacing);
      OfferedJoin(Events(t, i, pacing), AllEvents(u, ins[1..], pacing));
    }
  }

  // ---------------------------------------------------------------- rounds of data and silence

  /** Data, and then silence long enough for the queue to drain. */
  datatype Round = Round(data: seq<Input>, drain: seq<Input>)

  function Flat(rounds: seq<Round>): seq<Input> {
    if rounds == [] then [] else rounds[0].data + rounds[0].drain + Flat(rounds[1..])
  }

  /** In every round come only frames of the echo of connection cid, with at most a buffer's worth of payload. */
  ghost predicate Measured(ch: MacRx.Channel, rounds: seq<Round>, conns: seq<Tcp.Conn>, cid: nat)
    decreases |rounds|
  {
    && MacRx.Live(ch)
    && (rounds == [] ||
        var r := rounds[0];
        && EchoInputs(ch, r.data, conns, cid) && |Brought(ch, r.data)| <= Tcp.SEND_BUF
        && Silent(r.drain) && |r.drain| >= DRAIN_CALLS
        && Measured(ChannelAfter(ch, r.data + r.drain), rounds[1..], conns, cid))
  }

  lemma {:induction false} BroughtJoin(ch: MacRx.Channel, a: seq<Input>, b: seq<Input>)
    requires MacRx.Live(ch)
    ensures Brought(ch, a + b) == Brought(ch, a) + Brought(ChannelAfter(ch, a), b)
    ensures ChannelAfter(ch, a + b) == ChannelAfter(ChannelAfter(ch, a), b)
    decreases |a|
  {
    hide MacRx.Pass, MacRx.Live, BroughtBy;
    if a == [] {
      assert a + b == b;
    } else {
      assert (a + b)[1..] == a[1..] + b;
      var (c, x) := MacRx.Pass(ch, true, a[0].beat);
      BroughtJoin(c, a[1..], b);
      var p, q, r := BroughtBy(c, x), Brought(c, a[1..]), Brought(ChannelAfter(c, a[1..]), b);
      assert (p + q) + r == p + (q + r);
    }
  }

  lemma {:induction false} SilenceBringsNothing(ch: MacRx.Channel, ins: seq<Input>)
    requires MacRx.Live(ch) && Silent(ins)
    ensures Brought(ch, ins) == []
    decreases |ins|
  {
    hide MacRx.Live, ValidInput;
    if ins != [] {
      assert MacRx.Pass(ch, true, ins[0].beat) == (ch, None);
      SilenceBringsNothing(ch, ins[1..]);
    }
  }

  lemma {:induction false} EventsOfJoin(t: Top, a: seq<Input>, b: seq<Input>, pacing: nat)
    requires GatedRun(t, a, pacing) && GatedRun(After(t, a, pacing), b, pacing) && GatedRun(t, a + b, pacing)
    ensures AllEvents(t, a + b, pacing) == AllEvents(t, a, pacing) + AllEvents(After(t, a, pacing), b, pacing)
    decreases |a|
  {
    hide Step, Callable, Gated, Sized, Events;
    if a == [] {
      assert a + b == b;
    } else {
      assert (a + b)[1..] == a[1..] + b;
      EventsOfJoin(Step(t, a[0], pacing), a[1..], b, pacing);
    }
  }

  lemma EmptyQueue(t: Tcp.State)
    requires Tcp.Valid(t) && Tcp.Parked(t) == []
    ensures t.qLen == t.qOff && Fill(t) == 0
  {
  }

  /** One round: everything it brings is accepted, and the queue is empty again. */
  lemma RoundAccepted(t: Top, r: Round, pacing: nat, tops: seq<nat>, conns: seq<Tcp.Conn>, cid: nat)
    requires Inv(t) && TcpTable.Inv(t.tcp, tops) && Steady(conns, cid, t.tcp) && Fill(t.tcp) == 0 && pacing >= 2
    requires MacRx.Live(t.ch) && EchoInputs(t.ch, r.data, conns, cid) && |Brought(t.ch, r.data)| <= Tcp.SEND_BUF
    requires Silent(r.drain) && |r.drain| >= DRAIN_CALLS
    ensures var ins := r.data + r.drain;
      && GatedRun(t, ins, pacing) && TcpTable.ValidEvents(AllEvents(t, ins, pacing))
      && TcpEcho.Accepted(t.tcp, tops, AllEvents(t, ins, pacing), cid) == Brought(t.ch, ins)
      && var u := After(t, ins, pacing);
         var v := TcpTable.Run(t.tcp, tops, AllEvents(t, ins, pacing));
         && Inv(u) && v.0 == u.tcp && Steady(conns, cid, u.tcp) && Fill(u.tcp) == 0
         && u.ch == ChannelAfter(t.ch, ins) && MacRx.Live(u.ch)
  {
    hide Inv, Sized, AllAsked, After, TcpEcho.Accepted, AllEvents, EchoInputs, TcpTable.Inv, GatedRun, Due, Budget,
         Silent, Steady, TcpTable.Run, Fill, Brought, Segments, TcpEcho.AllOwned, TcpEcho.StaysEstablished, EchoEvent,
         ChannelAfter, TcpTable.ValidEvents, MacRx.Live;
    var ins := r.data + r.drain;
    EchoRun(t, r.data, pacing, tops, conns, cid);
    FramesOnLine(t, r.data, pacing);
    var m := After(t, r.data, pacing);
    Enough(m, pacing);
    QueueEmpties(m, r.drain, pacing);
    RunsJoin(t, r.data, r.drain, pacing);
    InputsThenSilence(t.ch, r.data, r.drain, conns, cid);
    EchoRun(t, ins, pacing, tops, conns, cid);
    FramesOnLine(t, ins, pacing);
    RunOffers(t, ins, pacing);
    BroughtJoin(t.ch, r.data, r.drain);
    SilenceBringsNothing(ChannelAfter(t.ch, r.data), r.drain);
    EventsAccept(conns, cid, t.tcp, tops, AllEvents(t, ins, pacing));
    EventsSteady(conns, cid, t.tcp, tops, AllEvents(t, ins, pacing));
    TableRun(t, ins, pacing, tops);
    EmptyQueue(After(t, ins, pacing).tcp);
    SizedNow(After(t, ins, pacing));
    LiveNow(After(t, ins, pacing));
  }

  /** Nothing is dropped: in measured rounds everything received for the echo port is accepted. */
  lemma {:induction false} RoundsAccepted(t: Top, rounds: seq<Round>, pacing: nat, tops: seq<nat>,
                                          conns: seq<Tcp.Conn>, cid: nat)
    requires Inv(t) && TcpTable.Inv(t.tcp, tops) && Steady(conns, cid, t.tcp) && Fill(t.tcp) == 0 && pacing >= 2
    requires Measured(t.ch, rounds, conns, cid)
    ensures var ins := Flat(rounds);
      && GatedRun(t, ins, pacing) && TcpTable.ValidEvents(AllEvents(t, ins, pacing)) && MacRx.Live(t.ch)
      && EchoInputs(t.ch, ins, conns, cid)
      && TcpEcho.Accepted(t.tcp, tops, AllEvents(t, ins, pacing), cid) == Brought(t.ch, ins)
    decreases |rounds|
  {
    hide Inv, Sized, After, TcpEcho.Accepted, AllEvents, EchoInputs, TcpTable.Inv, GatedRun, Steady, TcpTable.Run,
         Fill, Brought, ChannelAfter, TcpTable.ValidEvents, MacRx.Live, Silent;
    SizedNow(t);
    if rounds == [] {
      NoRounds(t, pacing, tops, conns, cid);
    } else {
      var r := rounds[0];
      var a, b := r.data + r.drain, Flat(rounds[1..]);
      RoundAccepted(t, r, pacing, tops, conns, cid);
      var u := After(t, a, pacing);
      var tops' := TcpTable.Run(t.tcp, tops, AllEvents(t, a, pacing)).1;
      RoundsAccepted(u, rounds[1..], pacing, tops', conns, cid);
      RunsJoin(t, a, b, pacing);
      EventsOfJoin(t, a, b, pacing);
      AcceptedJoin(t.tcp, tops, AllEvents(t, a, pacing), AllEvents(u, b, pacing), cid);
      BroughtJoin(t.ch, a, b);
      InputsThenSilence(t.ch, r.data, r.drain, conns, cid);
      InputsJoin(t.ch, a, b, conns, cid);
    }
  }

  lemma NoRounds(t: Top, pacing: nat, tops: seq<nat>, conns: seq<Tcp.Conn>, cid: nat)
    requires Sized(t) && TcpTable.Inv(t.tcp, tops)
    ensures GatedRun(t, [], pacing) && AllEvents(t, [], pacing) == [] && TcpTable.ValidEvents([])
    ensures EchoInputs(t.ch, [], conns, cid) && Brought(t.ch, []) == [] && TcpEcho.Accepted(t.tcp, tops, [], cid) == []
  {
    hide SaneTable;
  }

  lemma {:induction false} InputsJoin(ch: MacRx.Channel, a: seq<Input>, b: seq<Input>, conns: seq<Tcp.Conn>, cid: nat)
    requires EchoInputs(ch, a, conns, cid) && MacRx.Live(ch) && EchoInputs(ChannelAfter(ch, a), b, conns, cid)
    ensures EchoInputs(ch, a + b, conns, cid)
    decreases |a|
  {
    hide MacRx.Live, ValidInput, EchoFrame, MacRx.Pass;
    if a == [] {
      assert a + b == b;
    } else {
      assert (a + b)[1..] == a[1..] + b;
      InputsJoin(MacRx.Pass(ch, true, a[0].beat).0, a[1..], b, conns, cid);
    }
  }

  /** The echo of everything. A connection is established and the queue empty; data comes in rounds of at most 576
      bytes, with silence after each; then silence of FLUSH_CALLS. The segments among the frames asked for carry
      exactly the bytes received for the echo port, in order, and the wire has carried all these frames whole. */
  lemma EverythingReturns(t: Top, rounds: seq<Round>, drain: seq<Input>, flush: seq<Input>, pacing: nat,
                          tops: seq<nat>, cid: nat)
    requires Inv(t) && TcpTable.Inv(t.tcp, tops) && cid < Tcp.MAX_CONN && t.tcp.conns[cid].st == Tcp.Established
    requires t.tcp.qLen == t.tcp.qOff && Measured(t.ch, rounds, t.tcp.conns, cid) && pacing >= 2
    requires Silent(drain) && Silent(flush) && |drain| >= DRAIN_CALLS && |flush| >= FLUSH_CALLS
    ensures var ins := Flat(rounds) + drain;
      && GatedRun(t, ins, pacing) && GatedRun(t, ins + flush, pacing) && MacRx.Live(t.ch)
      && var jobs := AllAsked(t, ins, pacing);
         && (forall k :: 0 <= k < |jobs| ==> CarriesSegment(jobs[k]))
         && TcpEcho.Sent(Segments(jobs), cid) == Brought(t.ch, Flat(rounds))
         && Rest(t) + Frames(jobs) <= Line(t, ins + flush, pacing)
  {
    hide Inv, Sized, After, TcpEcho.Accepted, AllEvents, EchoInputs, TcpTable.Inv, GatedRun, TcpTable.Run, Flat,
         Brought, ChannelAfter, TcpTable.ValidEvents, MacRx.Live, Silent, Measured, AllAsked, Segments, Frames, Line,
         Rest, CarriesSegment, TcpEcho.Sent;
    var data, more := Flat(rounds), [Round([], drain)];
    SizedNow(t);
    LiveNow(t);
    assert Steady(t.tcp.conns, cid, t.tcp) by {
      SteadyStart(t.tcp, tops, cid);
    }
    MeasuredMore(t.ch, rounds, drain, t.tcp.conns, cid);
    RoundsAccepted(t, rounds + more, pacing, tops, t.tcp.conns, cid);
    RoundsAccepted(t, rounds, pacing, tops, t.tcp.conns, cid);
    FlatMore(rounds, drain);
    BroughtJoin(t.ch, data, drain);
    SilenceBringsNothing(ChannelAfter(t.ch, data), drain);
    assert Brought(t.ch, data) + [] == Brought(t.ch, data);
    EchoDelivered(t, data, drain, flush, pacing, tops, cid);
  }

  /** The same segments have the numbers from the connection's next one on. */
  lemma EchoNumbered(t: Top, rounds: seq<Round>, drain: seq<Input>, pacing: nat, tops: seq<nat>, cid: nat)
    requires Inv(t) && TcpTable.Inv(t.tcp, tops) && cid < Tcp.MAX_CONN && t.tcp.conns[cid].st == Tcp.Established
    requires t.tcp.qLen == t.tcp.qOff && Measured(t.ch, rounds, t.tcp.conns, cid) && pacing >= 2
    requires Silent(drain) && |drain| >= DRAIN_CALLS
    ensures var ins := Flat(rounds) + drain;
      && GatedRun(t, ins, pacing) && MacRx.Live(t.ch)
      && TcpEcho.Carries(Segments(AllAsked(t, ins, pacing)), cid, t.tcp.conns[cid].sndSeq,
                         Brought(t.ch, Flat(rounds)), 0)
  {
    hide Inv, Sized, After, TcpEcho.Accepted, AllEvents, EchoInputs, TcpTable.Inv, GatedRun, TcpTable.Run, Flat,
         Brought, ChannelAfter, TcpTable.ValidEvents, MacRx.Live, Silent, Measured, AllAsked, Segments, Frames, Line,
         Rest, CarriesSegment, TcpEcho.Sent, TcpEcho.Carries;
    var data, more := Flat(rounds), [Round([], drain)];
    SizedNow(t);
    LiveNow(t);
    SteadyStart(t.tcp, tops, cid);
    MeasuredMore(t.ch, rounds, drain, t.tcp.conns, cid);
    RoundsAccepted(t, rounds + more, pacing, tops, t.tcp.conns, cid);
    FlatMore(rounds, drain);
    BroughtJoin(t.ch, data, drain);
    RoundsAccepted(t, rounds, pacing, tops, t.tcp.conns, cid);
    SilenceBringsNothing(ChannelAfter(t.ch, data), drain);
    assert Brought(t.ch, data) + [] == Brought(t.ch, data);
    EchoFromFrames(t, data + drain, pacing, tops, cid);
  }

  lemma SteadyStart(t: Tcp.State, tops: seq<nat>, cid: nat)
    requires TcpTable.Inv(t, tops) && cid < Tcp.MAX_CONN && t.conns[cid].st == Tcp.Established && t.qLen == t.qOff
    ensures Steady(t.conns, cid, t) && Fill(t) == 0
  {
    hide TcpTable.Good, TcpTable.Unique;
  }

  lemma {:induction false} FlatMore(rounds: seq<Round>, drain: seq<Input>)
    ensures Flat(rounds + [Round([], drain)]) == Flat(rounds) + drain
    decreases |rounds|
  {
    var all := rounds + [Round([], drain)];
    if rounds == [] {
      assert all[1..] == [] && Flat(all[1..]) == [];
    } else {
      assert all[1..] == rounds[1..] + [Round([], drain)];
      FlatMore(rounds[1..], drain);
    }
  }

  lemma {:induction false} MeasuredMore(ch: MacRx.Channel, rounds: seq<Round>, drain: seq<Input>, conns: seq<Tcp.Conn>,
                                        cid: nat)
    requires Measured(ch, rounds, conns, cid) && Silent(drain) && |drain| >= DRAIN_CALLS
    ensures Measured(ch, rounds + [Round([], drain)], conns, cid)
    decreases |rounds|
  {
    hide EchoInputs, Silent, MacRx.Live, MacRx.Pass;
    var all := rounds + [Round([], drain)];
    if rounds == [] {
      assert all[1..] == [];
      LastRound(ch, drain, conns, cid);
    } else {
      assert all[1..] == rounds[1..] + [Round([], drain)];
      MeasuredMore(ChannelAfter(ch, rounds[0].data + rounds[0].drain), rounds[1..], drain, conns, cid);
    }
  }

  lemma LastRound(ch: MacRx.Channel, drain: seq<Input>, conns: seq<Tcp.Conn>, cid: nat)
    requires MacRx.Live(ch)
    ensures EchoInputs(ch, [], conns, cid) && Brought(ch, []) == []
  {
  }
}
