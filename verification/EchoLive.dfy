/** What is owed and queued gets out: in silence the machine sends everything within a computable number of calls. */
module EchoLive {
  import opened Bytes
  import opened Layout
  import opened Echo
  import opened EchoIntegrity
  import opened EchoRuns
  import opened EchoTcp
  import opened EchoData
  import opened Arp
  import D = Dhcp
  import MacRx
  import MacTx
  import MacWire
  import Tcp
  import TcpEcho
  import TcpFrame
  import TcpTable
  import Udp

  // ---------------------------------------------------------------- the debt is paid first

  /** Calls until the frame in flight is written. */
  ghost function Ahead(t: Top): nat
    requires Sized(t)
  {
    if t.mac.st == MacTx.Idle then 0 else MacWire.Left(t.mac, BUFFER_DEPTH)
  }

  lemma RemainingLength(t: Top)
    requires Inv(t)
    ensures |Remaining(t.mac, t.buffer)| == Ahead(t)
    ensures t.mac.st != MacTx.Idle ==> Ahead(t) > 0
  {
    hide MacWire.Streaming, MacTx.Wire, D.Sane, SaneTable, MacRx.Live;
    if t.mac.st != MacTx.Idle {
      MacWire.NotIdle(t.mac, t.buffer);
      MacWire.BodyLength(MacWire.Latched(t.mac), MacWire.PayloadOf(MacWire.Latched(t.mac), t.buffer));
    }
  }

  lemma LeftStep(s: MacTx.Tx, r: TxReq, m: seq<word>)
    requires MacTx.Legal(s, |m|) && s.st != MacTx.Idle
    ensures var x := MacTx.TxStep(s, r, m);
      && MacTx.Legal(x.0, |m|) && x.1 == r && x.2.Some?
      && if x.0.st == MacTx.Idle then MacWire.Left(s, |m|) == 1 else MacWire.Left(x.0, |m|) + 1 == MacWire.Left(s, |m|)
  {
    hide MacTx.HeaderByte, MacTx.DataByte, MacTx.PreambleByte;
  }

  /** The MAC's turn: the frame in flight gets one shorter; an idle MAC with a request begins its frame. */
  lemma AheadStep(t: Top, i: Input)
    requires Inv(t)
    ensures t.mac.st != MacTx.Idle ==> |Written(t)| == 1 && Ahead(AfterMac(t, i)) == Ahead(t) - 1
    ensures t.mac.st == MacTx.Idle && t.req.request ==>
      Written(t) == [] && Ahead(AfterMac(t, i)) == |MacWire.WireOf(t.req, t.buffer)|
  {
    hide MacRx.Pass, SaneTable, MacRx.Live, D.Sane, Inside, MacWire.Streaming, MacWire.Left, MacTx.Wire;
    var p := Prologue(t);
    if t.mac.st != MacTx.Idle {
      hide MacTx.TxStep, MacTx.Legal;
      LeftStep(p.mac, p.req, p.buffer);
    } else if t.req.request {
      TakenLeft(p.mac, p.req, p.buffer);
    }
  }

  lemma TakenLeft(s: MacTx.Tx, r: TxReq, m: seq<word>)
    requires s.st == MacTx.Idle && r.request && MacTx.LegalReq(r, |m|)
    ensures var x := MacTx.TxStep(s, r, m);
      x.2 == None && x.0.st != MacTx.Idle && MacTx.Legal(x.0, |m|)
      && MacWire.Left(x.0, |m|) == |MacWire.WireOf(r, m)|
  {
    hide MacTx.Wire;
    MacWire.BodyLength(r, MacWire.PayloadOf(r, m));
  }

  lemma CallAhead(t: Top, i: Input, pacing: nat)
    requires Callable(t, i) && Inv(t) && Gated(t, i)
    ensures Inv(Step(t, i, pacing))
    ensures t.mac.st != MacTx.Idle ==> |Written(t)| == 1 && Ahead(Step(t, i, pacing)) == Ahead(t) - 1
    ensures t.mac.st == MacTx.Idle && t.req.request ==>
      Written(t) == [] && Ahead(Step(t, i, pacing)) == |MacWire.WireOf(t.req, t.buffer)|
  {
    hide Builders, AfterFrame, AfterMac, Inv, Sized, Written, MacWire.WireOf;
    CallOwes(t, i, pacing);
    AheadStep(t, i);
    SameMac(t, i, pacing);
  }

  lemma SameMac(t: Top, i: Input, pacing: nat)
    requires Callable(t, i)
    ensures Step(t, i, pacing).mac == AfterMac(t, i).mac
  {
    hide AfterMac, Dispatch, Builders, Sized, MacRx.Pass;
  }

  /** Calls that write a prefix of what is owed: one a byte, and one to take the waiting request if it reaches that
      far. */
  ghost function Need(t: Top, r: seq<Beat>): nat
    requires Sized(t)
  {
    |r| + if |r| > Ahead(t) then 1 else 0
  }

  /** What is owed goes out first and without a break, whatever is asked for meanwhile. */
  lemma {:induction false} DebtFirst(t: Top, ins: seq<Input>, pacing: nat, r: seq<Beat>)
    requires Inv(t) && GatedRun(t, ins, pacing) && Sized(t) && r <= Rest(t) && |ins| >= Need(t, r)
    ensures r <= Line(t, ins, pacing)
    decreases |ins|
  {
    hide Step, Inv, Sized, Callable, Gated, Asked, Frames, Rest, Written, Ahead;
    if r != [] {
      var i, u := ins[0], Step(t, ins[0], pacing);
      CallOwes(t, i, pacing);
      CallAhead(t, i, pacing);
      OwedForm(t);
      SizedNow(u);
      var w, f := Written(t), Frames(Asked(t, i, pacing));
      assert Rest(t) + f == w + Rest(u);
      Shorter(r, Rest(t), f, w, Rest(u));
      DebtFirst(u, ins[1..], pacing, r[|w|..]);
      assert r == r[..|w|] + r[|w|..];
    }
  }

  /** What is owed is what remains of the frame in flight, then the waiting frame. */
  lemma OwedForm(t: Top)
    requires Inv(t)
    ensures Sized(t)
    ensures t.mac.st == MacTx.Idle ==> Ahead(t) == 0
    ensures t.mac.st == MacTx.Idle && !t.req.request ==> Rest(t) == []
    ensures t.mac.st == MacTx.Idle && t.req.request ==> Rest(t) == MacWire.WireOf(t.req, t.buffer)
    ensures t.mac.st != MacTx.Idle ==> Ahead(t) > 0 && |Rest(t)| >= Ahead(t)
  {
    hide MacWire.WireOf, MacWire.Streaming, D.Sane, SaneTable, MacRx.Live, Inside;
    RemainingLength(t);
  }

  lemma Shorter(r: seq<Beat>, a: seq<Beat>, f: seq<Beat>, w: seq<Beat>, b: seq<Beat>)
    requires r <= a && a + f == w + b && |w| <= 1 && r != []
    ensures r[..|w|] == w && r[|w|..] <= b
  {
    var all := a + f;
    assert r == all[..|r|];
    assert all[|w|..] == b;
    assert r[|w|..] == all[|w|..][..|r| - |w|];
  }

  // ---------------------------------------------------------------- silence

  predicate Silent(ins: seq<Input>) { forall k :: 0 <= k < |ins| ==> ValidInput(ins[k]) && ins[k].beat.None? }

  /** More calls than any frame needs. */
  const PER_FRAME: nat := 1060

  /** Segments still to be sent from the queue. */
  function Chunks(tcp: Tcp.State): nat
    requires Tcp.Valid(tcp)
  {
    TcpEcho.Chunks(|Tcp.Parked(tcp)|)
  }

  /** Frames that can still come before the queue is empty: the client's, a captured datagram's echo, one HELLO if its
      time has come, and for each chunk the chunk and perhaps a HELLO behind it. */
  ghost function Turns(t: Top, pacing: nat): nat
    requires Inv(t)
  {
    SizedNow(t);
    D.FramesLeft(t.client) + (if t.pending.Some? then 2 else 0) + (if t.udp.time + 1 >= pacing then 1 else 0)
    + 2 * Chunks(t.tcp)
  }

  /** Silent calls after which nothing is queued. */
  ghost function Budget(t: Top, pacing: nat): nat
    requires Inv(t)
  {
    SizedNow(t);
    Due(t) + PER_FRAME * Turns(t, pacing)
  }

  /** No request costs more. */
  lemma AskedCost(t: Top, i: Input, pacing: nat)
    requires Callable(t, i) && Inv(t) && Gated(t, i)
    ensures |Asked(t, i, pacing)| <= 1 && Cost(Asked(t, i, pacing)) < PER_FRAME
  {
    hide Step, AfterMac, Segment, Sized, Callable, Gated;
    CallOwes(t, i, pacing);
    var u := Step(t, i, pacing);
    SizedNow(u);
    if Asked(t, i, pacing) != [] {
      OneCost(u.req, MacWire.PayloadOf(u.req, u.buffer), Asked(t, i, pacing));
    }
  }

  lemma OneCost(r: TxReq, p: seq<byte>, jobs: seq<Job>)
    requires Inside(r) && |p| == r.len && |jobs| == 1 && jobs[0].req == r && jobs[0].payload == p
    ensures Cost(jobs) < PER_FRAME
  {
    hide MacTx.Wire;
    assert jobs[1..] == [];
    NoFrames();
    MacWire.BodyLength(r, p);
  }

  // ---------------------------------------------------------------- whose turn it is

  /** The client's turn counts its own frames. */
  lemma DhcpCounts(f: Top)
    requires Sized(f) && D.Sane(f.client)
    ensures var u := DhcpTurn(f);
      && D.Sane(u.client) && u.tcp == f.tcp && u.udp == f.udp && u.pending == f.pending
      && (f.req.request ==> u == f)
      && (!f.req.request ==> (if u.req.request then 1 else 0) + D.FramesLeft(u.client) <= D.FramesLeft(f.client))
  {
    hide D.TxStep, D.FrameBuffer, D.FramesLeft, D.Sane, MacRx.Live, SaneTable;
    if !f.req.request {
      DhcpStep(f.client, f.start);
      var (c, sent) := D.TxStep(f.client, f.start);
      assert DhcpTurn(f).client == c && DhcpTurn(f).req.request == sent.Some?;
    }
  }

  lemma DhcpStep(c: D.Client, start: bool)
    requires D.Sane(c)
    ensures var (d, sent) := D.TxStep(c, start);
      D.Sane(d) && (if sent.Some? then 1 else 0) + D.FramesLeft(d) <= D.FramesLeft(c)
  {
    hide D.FramesLeft, D.TxStep;
    D.StepSane(c, D.Call(start));
  }

  function SenderTurns(udp: Udp.UdpTx, pending: Option<Udp.Pending>, pacing: nat): nat {
    (if pending.Some? then 2 else 0) + if udp.time + 1 >= pacing then 1 else 0
  }

  /** The sender's turn on a free MAC: it sends what was due, or counts on. */
  lemma SenderCounts(f: Top, pacing: nat)
    requires Sized(f) && pacing >= 2 && !f.req.request
    ensures var u := UdpTurn(f, false, pacing);
      && u.tcp == f.tcp && u.client == f.client
      && (u.req.request ==> SenderTurns(u.udp, u.pending, pacing) < SenderTurns(f.udp, f.pending, pacing))
      && (!u.req.request ==> SenderTurns(u.udp, u.pending, pacing) <= SenderTurns(f.udp, f.pending, pacing) + 1)
  {
    hide MacRx.Live, SaneTable, Udp.JobBuffer, AfterLookup, Answer;
  }

  /** The maintenance sends a chunk if anything is queued. */
  lemma MaintenanceCounts(f: Top, junk: seq<byte>)
    requires Sized(f) && |junk| == TcpFrame.SCRATCH && !f.req.request
    ensures Tcp.Valid(f.tcp)
    ensures var u := TcpTurn(f, false, junk);
      && u.client == f.client && u.udp == f.udp && u.pending == f.pending && Tcp.Valid(u.tcp)
      && (Tcp.Parked(f.tcp) != [] ==> u.req.request && Chunks(u.tcp) == Chunks(f.tcp) - 1)
      && (Tcp.Parked(f.tcp) == [] ==> Tcp.Parked(u.tcp) == [] && !u.req.request)
  {
    hide MacRx.Live, TcpFrame.SendBuffer, AfterLookup, Answer, Tcp.Maintain, MacTx.Legal;
    MaintainSendable(f.tcp);
    ChunkSent(f.tcp);
  }

  lemma ChunkSent(t: Tcp.State)
    requires Tcp.Valid(t)
    ensures var (u, out) := Tcp.Maintain(t);
      && (Tcp.Parked(t) != [] ==> out.Some? && Chunks(u) == Chunks(t) - 1)
      && (Tcp.Parked(t) == [] ==> out.None? && Tcp.Parked(u) == [])
  {
    var u := Tcp.Maintain(t).0;
    if Tcp.Parked(t) != [] {
      var n := |Tcp.Parked(t)|;
      assert |Tcp.Parked(u)| == if n > Tcp.TX_CHUNK then n - Tcp.TX_CHUNK else 0;
    }
  }

  /** A silent call receives nothing. */
  lemma SilentIsGated(t: Top, i: Input)
    requires Sized(t) && ValidInput(i) && i.beat.None?
    ensures Callable(t, i) && Gated(t, i) && AfterFrame(t, i) == AfterMac(t, i)
  {
    hide MacTx.TxStep, MacTx.Legal, SaneTable, MacRx.Live;
  }

  /** The MAC's turn leaves the layers alone. */
  lemma LayersKept(t: Top, i: Input)
    requires Inv(t)
    ensures var a := AfterMac(t, i);
      && a.tcp == t.tcp && a.udp == t.udp && a.pending == t.pending && a.client == t.client && D.Sane(t.client)
      && (!Busy(t) ==> !a.req.request)
  {
    hide MacRx.Pass, SaneTable, MacRx.Live, D.Sane, MacTx.AfterHeaderByte, MacTx.AfterDataByte, MacTx.AfterFcsByte,
         MacTx.HeaderByte, MacTx.DataByte, MacWire.Streaming, Inside;
  }

  /** The builders in silence: whatever asks, its turns go down; and while bytes are queued a free MAC is asked. */
  lemma BuildersCount(f: Top, busy: bool, pacing: nat, junk: seq<byte>)
    requires Sized(f) && |junk| == TcpFrame.SCRATCH && pacing >= 2 && D.Sane(f.client) && (!busy ==> !f.req.request)
    ensures Tcp.Valid(f.tcp)
    ensures var u := Builders(f, busy, pacing, junk);
      && D.Sane(u.client) && Tcp.Valid(u.tcp)
      && (Tcp.Parked(f.tcp) == [] ==> Tcp.Parked(u.tcp) == [])
      && var before := D.FramesLeft(f.client) + SenderTurns(f.udp, f.pending, pacing) + 2 * Chunks(f.tcp);
         var after := D.FramesLeft(u.client) + SenderTurns(u.udp, u.pending, pacing) + 2 * Chunks(u.tcp);
         && (!f.req.request && u.req.request ==> after < before)
         && (busy && !u.req.request ==> after <= before)
         && (busy && f.req.request ==> after == before)
         && (!busy && Tcp.Parked(f.tcp) != [] ==> u.req.request)
  {
    hide Sized, DhcpTurn, UdpTurn, TcpTurn, D.FramesLeft, D.Sane, Tcp.Parked, Chunks, SenderTurns;
    SizedTable(f);
    DhcpCounts(f);
    var d := DhcpTurn(f);
    if busy || d.req.request {
      TurnsSkipped(d, busy, pacing, junk);
    } else {
      SenderCounts(d, pacing);
      var v := UdpTurn(d, false, pacing);
      if v.req.request {
        TcpSkipped(v, busy, junk);
      } else {
        MaintenanceCounts(v, junk);
      }
    }
  }

  lemma SizedTable(f: Top)
    requires Sized(f)
    ensures Tcp.Valid(f.tcp)
  {
    MaintainSendable(f.tcp);
  }

  lemma TurnsSkipped(d: Top, busy: bool, pacing: nat, junk: seq<byte>)
    requires Sized(d) && |junk| == TcpFrame.SCRATCH && (busy || d.req.request)
    ensures TcpTurn(UdpTurn(d, busy, pacing), busy, junk) == d
  {
    hide Sized;
  }

  lemma TcpSkipped(v: Top, busy: bool, junk: seq<byte>)
    requires Sized(v) && |junk| == TcpFrame.SCRATCH && v.req.request
    ensures TcpTurn(v, busy, junk) == v
  {
    hide Sized;
  }

  // ---------------------------------------------------------------- the queue empties

  /** One silent call while bytes are queued brings the machine nearer. */
  lemma SilentProgress(t: Top, i: Input, pacing: nat)
    requires Inv(t) && ValidInput(i) && i.beat.None? && pacing >= 2
    ensures Callable(t, i) && Gated(t, i) && Inv(Step(t, i, pacing)) && Tcp.Valid(t.tcp)
        && Tcp.Valid(Step(t, i, pacing).tcp)
    ensures Tcp.Parked(t.tcp) == [] ==> Tcp.Parked(Step(t, i, pacing).tcp) == []
    ensures Tcp.Parked(t.tcp) != [] ==> Budget(Step(t, i, pacing), pacing) < Budget(t, pacing)
  {
    hide Sized, Inv, AfterMac, AfterFrame, Callable, Gated, Builders, Busy, Due, Asked, D.FramesLeft, D.Sane,
         Tcp.Parked, Chunks, SenderTurns, Cost, Segment;
    SizedNow(t);
    SilentIsGated(t, i);
    CallOwes(t, i, pacing);
    CallPays(t, i, pacing);
    AskedCost(t, i, pacing);
    LayersKept(t, i);
    var f := AfterFrame(t, i);
    BuildersCount(f, Busy(t), pacing, i.junk2);
    var u := Step(t, i, pacing);
    AskedWhen(t, i, pacing);
    TurnsAre(t, pacing);
    TurnsAre(u, pacing);
    RequestsKept(t, i, pacing);
  }

  lemma AskedWhen(t: Top, i: Input, pacing: nat)
    requires Callable(t, i)
    ensures Asked(t, i, pacing) != [] <==> !AfterMac(t, i).req.request && Step(t, i, pacing).req.request
    ensures Asked(t, i, pacing) == [] ==> Cost(Asked(t, i, pacing)) == 0
  {
    hide Step, AfterMac, Callable, Segment;
    NoFrames();
  }

  lemma TurnsAre(t: Top, pacing: nat)
    requires Inv(t)
    ensures D.Sane(t.client) && Tcp.Valid(t.tcp)
    ensures Turns(t, pacing) == D.FramesLeft(t.client) + SenderTurns(t.udp, t.pending, pacing) + 2 * Chunks(t.tcp)
  {
    hide MacWire.Streaming, D.FramesLeft, MacRx.Live, Chunks, Inside;
    SizedTable(t);
  }

  lemma NoTurnsNoBytes(t: Top, pacing: nat)
    requires Inv(t) && Turns(t, pacing) == 0
    ensures Tcp.Valid(t.tcp) && Tcp.Parked(t.tcp) == []
  {
    hide Inv, D.FramesLeft, SenderTurns, Tcp.Parked;
    TurnsAre(t, pacing);
  }

  /** In silence, with HELLO frames at least two sender calls apart, nothing is queued any more after as many calls as
      the budget says. */
  lemma {:induction false} QueueEmpties(t: Top, ins: seq<Input>, pacing: nat)
    requires Inv(t) && Silent(ins) && pacing >= 2
    ensures GatedRun(t, ins, pacing) && Tcp.Valid(t.tcp) && Tcp.Valid(After(t, ins, pacing).tcp)
    ensures |ins| >= Budget(t, pacing) || Tcp.Parked(t.tcp) == [] ==> Tcp.Parked(After(t, ins, pacing).tcp) == []
    decreases |ins|
  {
    hide Inv, Sized, Step, Callable, Gated, Turns, Tcp.Parked, Due, ValidInput;
    SizedNow(t);
    SizedTable(t);
    if ins == [] {
      if Budget(t, pacing) == 0 {
        NoTurnsNoBytes(t, pacing);
      }
    } else {
      SilentProgress(t, ins[0], pacing);
      QueueEmpties(Step(t, ins[0], pacing), ins[1..], pacing);
    }
  }

  // ---------------------------------------------------------------- runs one after the other

  lemma {:induction false} RunsJoin(t: Top, a: seq<Input>, b: seq<Input>, pacing: nat)
    requires GatedRun(t, a, pacing) && GatedRun(After(t, a, pacing), b, pacing)
    ensures GatedRun(t, a + b, pacing)
    ensures After(t, a + b, pacing) == After(After(t, a, pacing), b, pacing)
    ensures Line(t, a + b, pacing) == Line(t, a, pacing) + Line(After(t, a, pacing), b, pacing)
    decreases |a|
  {
    hide Step, Callable, Gated, Sized, Written;
    if a == [] {
      assert a + b == b;
    } else {
      assert (a + b)[1..] == a[1..] + b;
      RunsJoin(Step(t, a[0], pacing), a[1..], b, pacing);
    }
  }

  lemma {:induction false} SilentInputs(ch: MacRx.Channel, ins: seq<Input>, conns: seq<Tcp.Conn>, cid: nat)
    requires MacRx.Live(ch) && Silent(ins)
    ensures EchoInputs(ch, ins, conns, cid)
    decreases |ins|
  {
    hide MacRx.Live, ValidInput, EchoFrame;
    if ins != [] {
      SilentInputs(ch, ins[1..], conns, cid);
    }
  }

  /** Inputs that may be followed by silence. */
  lemma {:induction false} InputsThenSilence(ch: MacRx.Channel, a: seq<Input>, b: seq<Input>, conns: seq<Tcp.Conn>,
      cid: nat)
    requires EchoInputs(ch, a, conns, cid) && Silent(b)
    ensures EchoInputs(ch, a + b, conns, cid)
    decreases |a|
  {
    hide MacRx.Live, ValidInput, EchoFrame, MacRx.Pass;
    if a == [] {
      assert a + b == b;
      SilentInputs(ch, b, conns, cid);
    } else {
      assert (a + b)[1..] == a[1..] + b;
      InputsThenSilence(MacRx.Pass(ch, true, a[0].beat).0, a[1..], b, conns, cid);
    }
  }

  /** Enough silence for anything: two frames' worth for what is due, and all turns there can be. */
  const FLUSH_CALLS: nat := 2 * PER_FRAME
  const DRAIN_CALLS: nat := 14 * PER_FRAME

  lemma Enough(t: Top, pacing: nat)
    requires Inv(t)
    ensures Sized(t) && Due(t) <= FLUSH_CALLS && Budget(t, pacing) <= DRAIN_CALLS
  {
    hide Inv, Sized, Due, Turns;
    DueBound(t);
    TurnsBound(t, pacing);
  }

  lemma TurnsBound(t: Top, pacing: nat)
    requires Inv(t)
    ensures Turns(t, pacing) <= 12
  {
    hide Inv, Turns;
    TurnsAre(t, pacing);
  }

  lemma DueBound(t: Top)
    requires Inv(t)
    ensures Sized(t) && Due(t) <= FLUSH_CALLS
  {
    hide MacWire.Streaming, MacTx.Wire, D.Sane, SaneTable, MacRx.Live;
    RemainingLength(t);
    if t.req.request {
      MacWire.BodyLength(t.req, MacWire.PayloadOf(t.req, t.buffer));
    }
  }

  /** The echo arrives. After the received frames of EchoFromFrames comes silence, first DRAIN_CALLS calls or more, then
      FLUSH_CALLS or more. Then the segments among the frames asked for until the end of the first silence carry all
      accepted bytes of the connection, and the wire has carried all these frames whole. */
  lemma EchoDelivered(t: Top, data: seq<Input>, drain: seq<Input>, flush: seq<Input>, pacing: nat, tops: seq<nat>,
      cid: nat)
    requires Inv(t) && TcpTable.Inv(t.tcp, tops) && cid < Tcp.MAX_CONN && t.tcp.conns[cid].st == Tcp.Established
    requires t.tcp.qLen == t.tcp.qOff && EchoInputs(t.ch, data, t.tcp.conns, cid)
    requires pacing >= 2 && Silent(drain) && Silent(flush) && |drain| >= DRAIN_CALLS && |flush| >= FLUSH_CALLS
    ensures GatedRun(t, data + drain, pacing) && GatedRun(t, data + drain + flush, pacing)
    ensures TcpTable.ValidEvents(AllEvents(t, data + drain, pacing))
    ensures var jobs := AllAsked(t, data + drain, pacing);
      && (forall k :: 0 <= k < |jobs| ==> CarriesSegment(jobs[k]))
      && TcpEcho.Accepted(t.tcp, tops, AllEvents(t, data + drain, pacing), cid) == TcpEcho.Sent(Segments(jobs), cid)
      && Rest(t) + Frames(jobs) <= Line(t, data + drain + flush, pacing)
  {
    hide Inv, Sized, AllAsked, Frames, Line, Rest, After, CarriesSegment, TcpEcho.Carries, TcpEcho.Sent,
         TcpEcho.Accepted, Segments, AllEvents, EchoInputs, TcpTable.Inv, GatedRun, Due, Budget, Silent;
    var both := data + drain;
    EchoFromFrames(t, data, pacing, tops, cid);
    FramesOnLine(t, data, pacing);
    var u := After(t, data, pacing);
    Enough(u, pacing);
    QueueEmpties(u, drain, pacing);
    RunsJoin(t, data, drain, pacing);
    InputsThenSilence(t.ch, data, drain, t.tcp.conns, cid);
    EchoFromFrames(t, both, pacing, tops, cid);
    FramesOnLine(t, both, pacing);
    var v := After(t, both, pacing);
    QueueEmpties(v, flush, pacing);
    RunsJoin(t, both, flush, pacing);
    Enough(v, pacing);
    AllOwed(v);
    SizedNow(t);
    DebtFirst(v, flush, pacing, Rest(v));
    var s := TcpEcho.Sent(Segments(AllAsked(t, both, pacing)), cid);
    assert s + [] == s;
  }

  lemma AllOwed(t: Top)
    requires Inv(t)
    ensures Sized(t) && Need(t, Rest(t)) <= Due(t) && Rest(t) <= Rest(t)
  {
    hide MacWire.Streaming, MacWire.WireOf, D.Sane, SaneTable, MacRx.Live, Inside;
    RemainingLength(t);
  }
}
