/** Runs of udp_echo: the line carries exactly the frames that were asked for, in order and whole, and the TCP
    segments among them are those of the connection table's own run. */
module EchoRuns {
  import opened Bytes
  import opened Layout
  import opened Arp
  import opened Echo
  import opened EchoIntegrity
  import D = Dhcp
  import Ip
  import MacRx
  import MacTx
  import MacWire
  import Tcp
  import TcpFrame
  import TcpTable

  // ---------------------------------------------------------------- runs

  /** Every call of the run can be made and what it receives is clear of the frames under way. */
  ghost predicate GatedRun(t: Top, ins: seq<Input>, pacing: nat)
    decreases |ins|
  {
    && Sized(t)
    && (ins == []
        || (Callable(t, ins[0]) && Gated(t, ins[0]) && GatedRun(Step(t, ins[0], pacing), ins[1..], pacing)))
  }

  ghost function After(t: Top, ins: seq<Input>, pacing: nat): (r: Top)
    requires GatedRun(t, ins, pacing)
    ensures Sized(r)
    decreases |ins|
  {
    if ins == [] then t else After(Step(t, ins[0], pacing), ins[1..], pacing)
  }

  /** The bytes written to the line. */
  ghost function Line(t: Top, ins: seq<Input>, pacing: nat): seq<Beat>
    requires GatedRun(t, ins, pacing)
    decreases |ins|
  {
    if ins == [] then [] else Written(t) + Line(Step(t, ins[0], pacing), ins[1..], pacing)
  }

  // ---------------------------------------------------------------- what TCP does in a call

  /** The TCP segment a call receives. */
  ghost function Received(t: Top, i: Input): Option<Tcp.Segment>
    requires Callable(t, i)
  {
    if Arrived(t, i) != Some(ETHERTYPE_IPV4) then None
    else
      var ip := HeaderOfFrame(FrameNow(t, i));
      if ip.valid && ip.protocol == Ip.PROTO_TCP then Some(TcpFrame.ParseSegment(ip, FrameNow(t, i))) else None
  }

  /** The state the maintenance finds. */
  ghost function AtMaintenance(t: Top, i: Input, pacing: nat): (r: Top)
    requires Callable(t, i)
    ensures Sized(r)
  {
    UdpTurn(DhcpTurn(AfterFrame(t, i)), Busy(t), pacing)
  }

  /** The gate in front of the maintenance is open. */
  ghost predicate Maintains(t: Top, i: Input, pacing: nat)
    requires Callable(t, i)
  {
    !AtMaintenance(t, i, pacing).req.request && !Busy(t)
  }

  /** The connection table's events in one call. */
  ghost function Events(t: Top, i: Input, pacing: nat): seq<TcpTable.Event>
    requires Callable(t, i)
  {
    (if Received(t, i).Some? then [TcpTable.Rx(Received(t, i).value)] else [])
    + (if Maintains(t, i, pacing) then [TcpTable.Idle] else [])
  }

  /** The segment the call's TCP layer hands to the MAC, if any: a reply, or a chunk from the queue. */
  ghost function Segment(t: Top, i: Input, pacing: nat): Option<Tcp.Out>
    requires Callable(t, i)
  {
    if AnsweredNow(t, i).Some? then AnsweredNow(t, i)
    else if Maintains(t, i, pacing) then Tcp.Maintain(AtMaintenance(t, i, pacing).tcp).1 else None
  }

  ghost function AnsweredNow(t: Top, i: Input): Option<Tcp.Out>
    requires Callable(t, i)
  {
    match Received(t, i)
    case None => None
    case Some(s) =>
      TcpFrame.ParsedValid(HeaderOfFrame(FrameNow(t, i)), FrameNow(t, i));
      ReceiveSendable(t.tcp, s);
      Tcp.Receive(t.tcp, s).1
  }

  // ---------------------------------------------------------------- what is asked for

  /** A frame asked for: the request, the bytes it pointed at when it was made, and for a TCP segment what it was
      built from and what the cache answers for its peer. */
  datatype Job = Job(req: TxReq, payload: seq<byte>, segment: Option<Tcp.Out>, answer: Option<mac>)

  ghost function Asked(t: Top, i: Input, pacing: nat): seq<Job>
    requires Callable(t, i)
  {
    var u := Step(t, i, pacing);
    if !AfterMac(t, i).req.request && u.req.request then
      var o := Segment(t, i, pacing);
      [Job(u.req, MacWire.PayloadOf(u.req, u.buffer), o,
           if o.Some? then Answer(u.arp, o.value.conn.peerIp) else None)]
    else []
  }

  ghost function AllAsked(t: Top, ins: seq<Input>, pacing: nat): seq<Job>
    requires GatedRun(t, ins, pacing)
    decreases |ins|
  {
    if ins == [] then [] else Asked(t, ins[0], pacing) + AllAsked(Step(t, ins[0], pacing), ins[1..], pacing)
  }

  /** The frames of a list of jobs, one after the other. */
  function Frames(jobs: seq<Job>): seq<Beat> {
    if jobs == [] then [] else MacTx.Wire(jobs[0].req, jobs[0].payload) + Frames(jobs[1..])
  }

  lemma {:induction false} FramesAppend(a: seq<Job>, b: seq<Job>)
    ensures Frames(a + b) == Frames(a) + Frames(b)
    decreases |a|
  {
    hide MacTx.Wire;
    if a == [] {
      assert a + b == b;
    } else {
      assert (a + b)[1..] == a[1..] + b;
      FramesAppend(a[1..], b);
    }
  }

  lemma CallOwes(t: Top, i: Input, pacing: nat)
    requires Callable(t, i) && Inv(t) && Gated(t, i)
    ensures Inv(Step(t, i, pacing))
    ensures Rest(t) + Frames(Asked(t, i, pacing)) == Written(t) + Rest(Step(t, i, pacing))
  {
    hide Step, AfterMac, Rest, Written, Inv, MacTx.Wire, Callable, Sized, Segment;
    StepOwes(t, i, pacing);
    var j := Asked(t, i, pacing);
    if j != [] {
      assert Frames(j[1..]) == [];
      assert Frames(j) == MacTx.Wire(j[0].req, j[0].payload);
    }
  }

  /** Every request made by a builder or a handler yields exactly one wire frame, with the buffer contents at the end
      of the call that made it; frames leave in the order asked for, none is lost, doubled or torn. */
  lemma {:induction false} FramesOnLine(t: Top, ins: seq<Input>, pacing: nat)
    requires Inv(t) && GatedRun(t, ins, pacing)
    ensures Inv(After(t, ins, pacing))
    ensures Rest(t) + Frames(AllAsked(t, ins, pacing)) == Line(t, ins, pacing) + Rest(After(t, ins, pacing))
    decreases |ins|
  {
    hide Step, Rest, Written, Inv, Asked, Frames, Callable, Sized, Gated;
    if ins == [] {
      assert Frames([]) == [] by {
        NoFrames();
      }
    } else {
      var u := Step(t, ins[0], pacing);
      CallOwes(t, ins[0], pacing);
      FramesOnLine(u, ins[1..], pacing);
      FramesAppend(Asked(t, ins[0], pacing), AllAsked(u, ins[1..], pacing));
      Telescope(Rest(t), Frames(Asked(t, ins[0], pacing)), Frames(AllAsked(u, ins[1..], pacing)), Written(t), Rest(u),
                Line(u, ins[1..], pacing), Rest(After(u, ins[1..], pacing)));
    }
  }

  lemma NoFrames()
    ensures Frames([]) == []
  {
  }

  lemma Telescope(r: seq<Beat>, a: seq<Beat>, b: seq<Beat>, w: seq<Beat>, s: seq<Beat>, l: seq<Beat>, e: seq<Beat>)
    requires r + a == w + s && s + b == l + e
    ensures r + (a + b) == (w + l) + e
  {
    assert r + (a + b) == (r + a) + b == w + (s + b) == (w + l) + e;
  }

  /** From power-up nothing is owed: the line is the frames asked for, up to what is still to be written. */
  lemma LineIsFrames(frame: seq<word>, ins: seq<Input>, pacing: nat)
    requires |frame| == FRAME_BUF_WORDS && GatedRun(PowerUp(frame), ins, pacing)
    ensures var t := PowerUp(frame);
      Frames(AllAsked(t, ins, pacing)) == Line(t, ins, pacing) + Rest(After(t, ins, pacing))
  {
    hide Sized, Inv, Rest, PowerUp, GatedRun, AllAsked, Line, After, Frames;
    PowerUpOwes(frame);
    var t := PowerUp(frame);
    FramesOnLine(t, ins, pacing);
  }

  lemma PowerUpOwes(frame: seq<word>)
    requires |frame| == FRAME_BUF_WORDS
    ensures Inv(PowerUp(frame)) && Rest(PowerUp(frame)) == []
  {
    TcpTable.InitInv();
  }

  // ---------------------------------------------------------------- the debt is paid

  /** Calls the MAC needs for what is owed: one per byte, one to take a waiting request. */
  ghost function Due(t: Top): nat
    requires Sized(t)
  {
    |Rest(t)| + if t.req.request then 1 else 0
  }

  function Cost(jobs: seq<Job>): nat {
    |Frames(jobs)| + |jobs|
  }

  /** The MAC is busy exactly while something is owed. */
  lemma BusyIffDue(t: Top)
    requires Inv(t)
    ensures Busy(t) <==> Due(t) > 0
  {
    hide MacTx.Wire, MacWire.Streaming, MacTx.Body, D.Sane, SaneTable, MacRx.Live;
    if t.mac.st != MacTx.Idle {
      MacWire.NotIdle(t.mac, t.buffer);
      MacWire.StepEmits(t.mac, t.req, t.buffer);
    }
  }

  /** A waiting request waits until the MAC takes it. */
  lemma RequestsKept(t: Top, i: Input, pacing: nat)
    requires Callable(t, i) && Inv(t) && Gated(t, i)
    ensures AfterMac(t, i).req.request ==> Step(t, i, pacing).req.request
  {
    hide AfterMac, AfterFrame, Busy, Inv, Gated, Sized, Inside, MacWire.WireOf, Rest;
    FrameOwes(t, i);
  }

  lemma SizedNow(t: Top)
    requires Inv(t)
    ensures Sized(t)
  {
  }

  /** The MAC never stalls: a busy call pays exactly one. */
  lemma CallPays(t: Top, i: Input, pacing: nat)
    requires Callable(t, i) && Inv(t) && Gated(t, i)
    ensures Due(t) + Cost(Asked(t, i, pacing)) == (if Busy(t) then 1 else 0) + Due(Step(t, i, pacing))
  {
    hide Rest, Builders, Segment, Inside, MacTx.Wire, Frames, MacWire.WireOf, MacRx.Pass, Inv, MacRx.Live,
         MacTx.Legal, SaneTable, Manageable;
    SizedNow(t);
    CallOwes(t, i, pacing);
    RequestsKept(t, i, pacing);
    var r, a, w, s := Rest(t), Frames(Asked(t, i, pacing)), Written(t), Rest(Step(t, i, pacing));
    assert |r + a| == |w + s|;
  }

  /** Once no more frames are asked for, the line catches up within as many calls as are due, and the MAC falls idle. */
  lemma {:induction false} LineCatchesUp(t: Top, ins: seq<Input>, pacing: nat)
    requires Inv(t) && GatedRun(t, ins, pacing) && AllAsked(t, ins, pacing) == [] && |ins| >= Due(t)
    ensures Line(t, ins, pacing) == Rest(t) && !Busy(After(t, ins, pacing))
    decreases |ins|
  {
    hide Step, Inv, Callable, Gated, Asked, Frames, Rest, Busy, Written;
    BusyIffDue(t);
    NoFrames();
    if ins == [] {
      assert Rest(t) == [];
    } else {
      var u := Step(t, ins[0], pacing);
      assert Asked(t, ins[0], pacing) == [];
      CallOwes(t, ins[0], pacing);
      CallPays(t, ins[0], pacing);
      LineCatchesUp(u, ins[1..], pacing);
      assert Rest(t) + [] == Rest(t);
    }
  }

  // ---------------------------------------------------------------- which frames are clear

  /** A TCP segment is answered at once exactly when it opens a connection or ends an established one: data and pure
      acknowledgements of established connections are always clear. */
  lemma AnsweredIff(tcp: Tcp.State, tops: seq<nat>, ip: Ip.IpRx, frame: seq<word>)
    requires TcpTable.Inv(tcp, tops) && |frame| == FRAME_BUF_WORDS && TcpFrame.LengthsFit(ip, frame)
    ensures SaneTable(tcp)
    ensures var s := TcpFrame.ParseSegment(ip, frame);
      var h := TcpTable.Handled(tcp, s);
      Answered(tcp, ip, frame) <==>
        h.Some? && (tcp.conns[h.value].st == Tcp.Free
                    || (tcp.conns[h.value].st == Tcp.Established && Tcp.HasFin(s.flags)))
  {
    hide TcpFrame.ParseSegment, TcpFrame.LengthsFit, Tcp.Queue, Tcp.Find, TcpTable.Unique;
    TcpFrame.ParsedValid(ip, frame);
    var s := TcpFrame.ParseSegment(ip, frame);
    ReceiveSendable(tcp, s);
    TcpTable.ReceiveForm(tcp, s);
    var h := TcpTable.Handled(tcp, s);
    if h.Some? {
      var c := tcp.conns[h.value];
      assert TcpTable.Good(c, tops[h.value]);
      if c.st != Tcp.Free {
        TcpTable.NotedKeeps(c, s);
      } else {
        TcpTable.NotedKeeps(Tcp.Opened(s), s);
      }
    }
  }

  /** The call completes no frame, or a data segment or pure acknowledgement of an established connection. */
  ghost predicate DataCall(t: Top, i: Input) {
    && Callable(t, i)
    && (Arrived(t, i).Some? ==>
          var ip := HeaderOfFrame(FrameNow(t, i));
          && Arrived(t, i) == Some(ETHERTYPE_IPV4) && ip.valid && ip.protocol == Ip.PROTO_TCP
          && TcpFrame.LengthsFit(ip, FrameNow(t, i))
          && var s := TcpFrame.ParseSegment(ip, FrameNow(t, i));
             !Tcp.HasFin(s.flags) && Tcp.Valid(t.tcp) && Carried(t.tcp, TcpTable.Handled(t.tcp, s)))
  }

  predicate Carried(tcp: Tcp.State, slot: Option<nat>) {
    slot.Some? && slot.value < |tcp.conns| && tcp.conns[slot.value].st == Tcp.Established
  }

  ghost predicate DataRun(t: Top, ins: seq<Input>, pacing: nat)
    decreases |ins|
  {
    Sized(t) && (ins == [] || (DataCall(t, ins[0]) && DataRun(Step(t, ins[0], pacing), ins[1..], pacing)))
  }

  lemma DataCallIsGated(t: Top, i: Input)
    requires DataCall(t, i)
    ensures Gated(t, i)
  {
    hide MacTx.TxStep, MacRx.Pass, MacRx.Live, MacTx.Legal, TcpFrame.ParseSegment, TcpFrame.LengthsFit, Answered,
         Arrived, FrameNow, HeaderOfFrame, TcpTable.Inv, Manageable;
    if Arrived(t, i).Some? {
      var tops :| TcpTable.Inv(t.tcp, tops);
      AnsweredIff(t.tcp, tops, HeaderOfFrame(FrameNow(t, i)), FrameNow(t, i));
    }
  }

  /** Runs that receive nothing but data segments and pure acknowledgements of established connections are gated. */
  lemma {:induction false} DataRunIsGated(t: Top, ins: seq<Input>, pacing: nat)
    requires DataRun(t, ins, pacing)
    ensures GatedRun(t, ins, pacing)
    decreases |ins|
  {
    hide Step, DataCall, Callable, Gated, Sized;
    if ins != [] {
      DataCallIsGated(t, ins[0]);
      IsCallable(t, ins[0]);
      DataRunIsGated(Step(t, ins[0], pacing), ins[1..], pacing);
    }
  }

  lemma IsCallable(t: Top, i: Input)
    requires DataCall(t, i)
    ensures Callable(t, i)
  {
  }

  /** Silence is such a run. */
  lemma {:induction false} SilentRun(t: Top, ins: seq<Input>, pacing: nat)
    requires Sized(t) && forall k :: 0 <= k < |ins| ==> ValidInput(ins[k]) && ins[k].beat.None?
    ensures DataRun(t, ins, pacing)
    decreases |ins|
  {
    hide Step, Sized, ValidInput;
    if ins != [] {
      SilentRun(Step(t, ins[0], pacing), ins[1..], pacing);
    }
  }
}
