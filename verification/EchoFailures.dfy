/** Frames lost and torn, from power-up: what a received frame does to a HELLO frame in flight and to a reply waiting
    behind it. */
module EchoFailures {
  import opened Bytes
  import opened Layout
  import opened Store
  import opened Arp
  import opened Echo
  import opened EchoIntegrity
  import opened EchoRuns
  import opened EchoLive
  import opened EchoTcp
  import opened EchoData
  import opened EchoWhole
  import opened EchoDisturb
  import opened EchoReceive
  import opened EchoAnswers
  import MacFrames
  import D = Dhcp
  import Ip
  import MacRx
  import MacTx
  import MacWire
  import Tcp
  import TcpFrame
  import TcpTable
  import Udp

  // ---------------------------------------------------------------- calls that complete no frame

  /** Bytes at most, none of them the last of a frame. */
  predicate Unfinished(i: Input) { ValidInput(i) && (i.beat.Some? ==> !i.beat.value.last) }

  lemma NothingArrives(t: Top, i: Input)
    requires Sized(t) && Unfinished(i)
    ensures Arrived(t, i) == None && Callable(t, i) && Gated(t, i) && AfterFrame(t, i) == AfterMac(t, i)
  {
    hide MacTx.Legal, SaneTable, AfterMac, MacRx.Pass;
    if i.beat.Some? {
      MacFrames.NoReport(t.ch, i.beat.value);
    } else {
      NoBeat(t.ch);
    }
  }

  lemma NoBeat(ch: MacRx.Channel)
    requires MacRx.Live(ch)
    ensures MacRx.Pass(ch, true, None) == (ch, None)
  {
  }

  // ---------------------------------------------------------------- before the first HELLO

  /** The machine after n calls from power-up without a frame, before the first HELLO is due. */
  ghost predicate Early(t: Top, n: nat) {
    && Sized(t) && t.mac == MacTx.RESET && t.req == NO_REQUEST && t.client.st == D.Idle && !t.start && t.delay == n
    && t.udp == Udp.UdpTx(n, 0, false, 0) && t.pending == None && NothingQueued(t.tcp) && t.arp == EMPTY
    && Inv(t)
  }

  predicate NothingQueued(t: Tcp.State) { Tcp.Valid(t) && t.qLen == t.qOff }

  /** HELLO intervals in the range of these runs. */
  predicate Moderate(pacing: nat) { 200 <= pacing <= DHCP_DELAY - 200 }

  lemma ClientWaits(c: D.Client)
    requires c.st == D.Idle
    ensures D.TxStep(c, false).0.st == D.Idle && D.TxStep(c, false).1 == None
  {
  }

  lemma EarlyPrologue(t: Top, n: nat)
    requires Early(t, n) && n + 1 <= DHCP_DELAY
    ensures var p := Prologue(t);
      p.delay == n + 1 && !p.start && p.mac == t.mac && p.req == t.req && p.client == t.client && p.udp == t.udp
      && p.pending == t.pending && p.tcp == t.tcp && p.arp == t.arp
  {
    hide SaneTable, MacRx.Live, Inv;
  }

  /** What the MAC and the receiver leave of such a call. */
  lemma EarlyMac(t: Top, i: Input, n: nat)
    requires Early(t, n) && n + 1 <= DHCP_DELAY && Unfinished(i)
    ensures var f := AfterFrame(t, i);
      && Callable(t, i) && Gated(t, i) && !Busy(t) && Sized(f) && Written(t) == []
      && f.delay == n + 1 && !f.start && f.mac == MacTx.RESET && f.req == NO_REQUEST && f.client.st == D.Idle
      && f.udp == t.udp && f.pending == None && NothingQueued(f.tcp) && f.arp == EMPTY
  {
    hide SaneTable, MacRx.Live, Inv, MacRx.Pass, Prologue;
    NothingArrives(t, i);
    EarlyPrologue(t, n);
  }

  lemma DhcpWaits(f: Top)
    requires Sized(f) && f.client.st == D.Idle && !f.start
    ensures DhcpTurn(f) == if f.req.request then f else f.(client := D.TxStep(f.client, false).0)
    ensures DhcpTurn(f).client.st == D.Idle
  {
    hide SaneTable, MacRx.Live, MacTx.Legal, D.TxStep, D.FrameBuffer;
    ClientWaits(f.client);
  }

  lemma TcpWaits(f: Top, busy: bool, junk: seq<byte>)
    requires Sized(f) && |junk| == TcpFrame.SCRATCH && (NothingQueued(f.tcp) || f.req.request)
    ensures TcpTurn(f, busy, junk) == f
  {
    hide SaneTable, MacRx.Live, MacTx.Legal, TcpFrame.SendBuffer, Answer, AfterLookup;
  }

  /** The sender while the HELLO is not due. */
  lemma SenderWaits(f: Top, pacing: nat, n: nat)
    requires n + 1 < pacing < WRAP && Sized(f) && f.udp == Udp.UdpTx(n, 0, false, 0) && f.pending == None
    requires f.req == NO_REQUEST
    ensures UdpTurn(f, false, pacing) == f.(udp := Udp.UdpTx(n + 1, 0, false, 0))
  {
    hide SaneTable, MacRx.Live, MacTx.Legal, Udp.JobBuffer, Answer, AfterLookup;
  }

  lemma EarlyBuilders(f: Top, pacing: nat, junk: seq<byte>, n: nat)
    requires n + 1 < pacing < WRAP && Sized(f) && |junk| == TcpFrame.SCRATCH && f.req == NO_REQUEST
    requires f.client.st == D.Idle && !f.start && f.udp == Udp.UdpTx(n, 0, false, 0) && f.pending == None
    requires NothingQueued(f.tcp)
    ensures Builders(f, false, pacing, junk)
         == f.(client := D.TxStep(f.client, false).0, udp := Udp.UdpTx(n + 1, 0, false, 0))
  {
    hide Sized, D.TxStep, DhcpTurn, UdpTurn, TcpTurn;
    DhcpWaits(f);
    SenderWaits(DhcpTurn(f), pacing, n);
    TcpWaits(UdpTurn(DhcpTurn(f), false, pacing), false, junk);
  }

  lemma EarlyStep(t: Top, i: Input, pacing: nat, n: nat)
    requires Early(t, n) && Moderate(pacing) && n + 1 < pacing && Unfinished(i)
    ensures Callable(t, i) && Gated(t, i) && Early(Step(t, i, pacing), n + 1) && Written(t) == []
  {
    hide AfterFrame, Inv, Sized, Builders, D.TxStep;
    EarlyMac(t, i, n);
    EarlyBuilders(AfterFrame(t, i), pacing, i.junk2, n);
    ClientWaits(AfterFrame(t, i).client);
    StepOwes(t, i, pacing);
  }

  // ---------------------------------------------------------------- the HELLO

  const HELLO: Udp.Job := Udp.Job(false, Udp.DEFAULT_LENGTH, Udp.DEFAULT_TOTAL, 1, Udp.UDP_PORT, Udp.HELLO_IP)

  /** The HELLO frame has been taken and k of its bytes are written; what waits is somebody else's. */
  ghost predicate HelloAway(t: Top, k: nat, delay: nat) {
    && Sized(t) && Inv(t) && t.client.st == D.Idle && !t.start && t.delay == delay
    && t.mac.st != MacTx.Idle && t.mac.wbase == TX_UDP_BASE && t.mac.nbytes == 48 && !t.mac.vlan
    && MacWire.Position(t.mac) == k && t.buffer[TX_UDP_BASE + 7] == Udp.HELLO_WORDS[0]
  }

  /** The HELLO is due. */
  lemma HelloBuilt(f: Top, pacing: nat)
    requires 0 < pacing < WRAP && Sized(f) && f.udp == Udp.UdpTx(pacing - 1, 0, false, 0) && f.pending == None
    requires f.arp == EMPTY && f.req == NO_REQUEST
    ensures var u := UdpTurn(f, false, pacing);
      && u.req == Udp.JobReq(NO_REQUEST, HELLO, None) && u.mac == f.mac && u.client == f.client && u.start == f.start
      && u.delay == f.delay && u.buffer[TX_UDP_BASE + 7] == Udp.HELLO_WORDS[0]
  {
    hide SaneTable, MacRx.Live, MacTx.Legal, Udp.HeaderOf, Udp.AskBuffer, WordsOf;
    assert Answer(EMPTY, Udp.HELLO_IP) == None;
  }

  lemma HelloBuilders(f: Top, pacing: nat, junk: seq<byte>)
    requires 0 < pacing < WRAP && Sized(f) && |junk| == TcpFrame.SCRATCH && f.req == NO_REQUEST
    requires f.client.st == D.Idle && !f.start && f.udp == Udp.UdpTx(pacing - 1, 0, false, 0) && f.pending == None
    requires f.arp == EMPTY
    ensures var u := Builders(f, false, pacing, junk);
      && u.req == Udp.JobReq(NO_REQUEST, HELLO, None) && u.mac == f.mac && u.client.st == D.Idle && u.start == f.start
      && u.delay == f.delay && u.buffer[TX_UDP_BASE + 7] == Udp.HELLO_WORDS[0]
  {
    hide Sized, D.TxStep, DhcpTurn, UdpTurn, TcpTurn;
    DhcpWaits(f);
    HelloBuilt(DhcpTurn(f), pacing);
    TcpWaits(UdpTurn(DhcpTurn(f), false, pacing), false, junk);
  }

  /** The HELLO has been asked for. */
  ghost predicate HelloAsked(t: Top) {
    && Inv(t) && Sized(t) && t.client.st == D.Idle && !t.start && t.delay < DHCP_DELAY - 100
    && t.mac == MacTx.RESET && t.req == Udp.JobReq(NO_REQUEST, HELLO, None)
    && t.buffer[TX_UDP_BASE + 7] == Udp.HELLO_WORDS[0]
  }

  lemma HelloStep(t: Top, i: Input, pacing: nat)
    requires Moderate(pacing) && Early(t, pacing - 1) && Unfinished(i)
    ensures Callable(t, i) && Gated(t, i) && HelloAsked(Step(t, i, pacing))
  {
    hide AfterFrame, Inv, Sized, Builders, D.TxStep;
    EarlyMac(t, i, pacing - 1);
    HelloBuilders(AfterFrame(t, i), pacing, i.junk2);
    StepOwes(t, i, pacing);
  }

  lemma LatePrologue(t: Top)
    requires Sized(t) && Inv(t) && t.client.st == D.Idle && !t.start && t.delay < DHCP_DELAY - 1 && Busy(t)
    ensures var p := Prologue(t);
      p.delay == t.delay + 1 && !p.start && p.mac == t.mac && p.req == t.req && p.client == t.client
          && p.buffer == t.buffer
  {
    hide SaneTable, MacRx.Live, MacTx.Legal, MacWire.Streaming, Inside;
  }

  /** The MAC takes the HELLO. */
  lemma HelloTaken(t: Top, i: Input, pacing: nat)
    requires HelloAsked(t) && Unfinished(i)
    ensures Callable(t, i) && Gated(t, i)
    ensures HelloAway(Step(t, i, pacing), 0, t.delay + 1) && !Step(t, i, pacing).req.request
  {
    hide Inv, Sized, SaneTable, MacRx.Live, MacRx.Pass, Builders, D.TxStep, Prologue;
    NothingArrives(t, i);
    LatePrologue(t);
    StepOwes(t, i, pacing);
    BusyBuilders(AfterFrame(t, i), pacing, i.junk2);
    DhcpWaits(AfterFrame(t, i));
  }

  /** While the HELLO streams, a call without a frame writes its next byte and leaves the rest alone. */
  lemma AwayStep(t: Top, i: Input, pacing: nat, k: nat, delay: nat)
    requires HelloAway(t, k, delay) && delay < DHCP_DELAY - 1 && k < 70 && Unfinished(i)
    ensures Callable(t, i) && Gated(t, i) && HelloAway(Step(t, i, pacing), k + 1, delay + 1)
    ensures Step(t, i, pacing).req == t.req && Step(t, i, pacing).buffer == t.buffer
  {
    hide Inv, Sized, SaneTable, MacRx.Live, MacRx.Pass, Builders, D.TxStep, Prologue, MacTx.TxStep, MacWire.Position;
    NothingArrives(t, i);
    LatePrologue(t);
    AwayMac(t, i, k, delay);
    StepOwes(t, i, pacing);
    BusyBuilders(AfterFrame(t, i), pacing, i.junk2);
    DhcpWaits(AfterFrame(t, i));
  }

  /** The MAC's part of such a call, and of one that does receive a frame. */
  lemma AwayMac(t: Top, i: Input, k: nat, delay: nat)
    requires HelloAway(t, k, delay) && delay < DHCP_DELAY - 1 && k < 70
    ensures Busy(t)
    ensures var a := AfterMac(t, i);
      && a.mac.st != MacTx.Idle && a.mac.wbase == TX_UDP_BASE && a.mac.nbytes == 48 && !a.mac.vlan
      && MacWire.Position(a.mac) == k + 1 && a.req == t.req && a.buffer == t.buffer
      && a.client == t.client && a.start == t.start && a.delay == delay + 1
  {
    hide SaneTable, MacRx.Live, MacRx.Pass, Prologue, MacTx.TxStep, MacWire.Position, MacWire.Streaming, MacTx.Legal,
         FirstPhase, Timed;
    LatePrologue(t);
    AwayEmits(t.mac, t.req, t.buffer, k);
  }

  lemma AwayEmits(s: MacTx.Tx, r: TxReq, m: seq<word>, k: nat)
    requires s.st != MacTx.Idle && MacWire.Streaming(s, m) && MacTx.Legal(s, |m|) && MacWire.Position(s) == k < 70
    requires s.wbase == TX_UDP_BASE && s.nbytes == 48 && !s.vlan
    ensures var (s', r', _) := MacTx.TxStep(s, r, m);
      && s'.st != MacTx.Idle && s'.wbase == TX_UDP_BASE && s'.nbytes == 48 && !s'.vlan
      && MacWire.Position(s') == k + 1 && r' == r
  {
    hide MacTx.TxStep, MacWire.Position, MacWire.Streaming, MacTx.Legal, MacWire.WireOf;
    MacWire.NotIdle(s, m);
    MacWire.StepEmits(s, r, m);
    HelloLength(s, m);
    if MacWire.Position(s) + 1 < 74 {
      MacWire.NotIdle(MacTx.TxStep(s, r, m).0, m);
    }
  }

  lemma HelloLength(s: MacTx.Tx, m: seq<word>)
    requires 4 * s.wbase + s.nbytes <= 4 * |m| && s.nbytes == 48 && !s.vlan
    ensures |MacWire.WireOf(MacWire.Latched(s), m)| == 74
  {
    hide MacTx.Wire;
    MacWire.BodyLength(MacWire.Latched(s), MacWire.PayloadOf(MacWire.Latched(s), m));
  }

  // ---------------------------------------------------------------- runs without a frame

  predicate AllUnfinished(ins: seq<Input>) { forall k :: 0 <= k < |ins| ==> Unfinished(ins[k]) }

  lemma {:induction false} EarlyRun(t: Top, ins: seq<Input>, pacing: nat, n: nat)
    requires Early(t, n) && Moderate(pacing) && n + |ins| < pacing && AllUnfinished(ins)
    ensures GatedRun(t, ins, pacing) && Early(After(t, ins, pacing), n + |ins|)
    decreases |ins|
  {
    hide Early, Step, Sized, Callable, Gated, Unfinished;
    EarlySized(t, n);
    if ins != [] {
      EarlyStep(t, ins[0], pacing, n);
      EarlyRun(Step(t, ins[0], pacing), ins[1..], pacing, n + 1);
    }
  }

  lemma EarlySized(t: Top, n: nat)
    requires Early(t, n)
    ensures Sized(t)
  {
  }

  lemma {:induction false} AwayRun(t: Top, ins: seq<Input>, pacing: nat, k: nat, delay: nat)
    requires HelloAway(t, k, delay) && delay + |ins| < DHCP_DELAY && k + |ins| <= 70 && AllUnfinished(ins)
    ensures GatedRun(t, ins, pacing) && HelloAway(After(t, ins, pacing), k + |ins|, delay + |ins|)
    ensures After(t, ins, pacing).req == t.req && After(t, ins, pacing).buffer == t.buffer
    decreases |ins|
  {
    hide HelloAway, Step, Sized, Callable, Gated, Unfinished;
    AwaySized(t, k, delay);
    if ins != [] {
      AwayStep(t, ins[0], pacing, k, delay);
      AwayRun(Step(t, ins[0], pacing), ins[1..], pacing, k + 1, delay + 1);
    }
  }

  lemma AwaySized(t: Top, k: nat, delay: nat)
    requires HelloAway(t, k, delay)
    ensures Sized(t) && Inv(t)
  {
  }

  /** From power-up: pacing calls, one more for the MAC to take the HELLO, and k calls to write its first bytes. */
  lemma HelloRun(frame: seq<word>, ins: seq<Input>, pacing: nat, k: nat)
    requires |frame| == FRAME_BUF_WORDS && Moderate(pacing) && k <= 70 && |ins| == pacing + 1 + k && AllUnfinished(ins)
    ensures var t := PowerUp(frame);
      && GatedRun(t, ins, pacing) && HelloAway(After(t, ins, pacing), k, pacing + 1 + k)
      && !After(t, ins, pacing).req.request
  {
    hide HelloAway, Early, HelloAsked, Step, Sized, Callable, Gated, Unfinished, AllUnfinished, PowerUp, GatedRun,
         After;
    var t := PowerUp(frame);
    var a, b, c, d := ins[..pacing - 1], ins[pacing - 1], ins[pacing], ins[pacing + 1..];
    UnfinishedParts(ins, pacing - 1);
    EarlyAtPowerUp(frame);
    EarlyRun(t, a, pacing, 0);
    var u := After(t, a, pacing);
    HelloFrom(u, b, c, d, pacing);
    RunsJoin(t, a, [b] + ([c] + d), pacing);
  }

  lemma UnfinishedParts(ins: seq<Input>, n: nat)
    requires AllUnfinished(ins) && n + 2 <= |ins|
    ensures ins == ins[..n] + ([ins[n]] + ([ins[n + 1]] + ins[n + 2..]))
    ensures AllUnfinished(ins[..n]) && Unfinished(ins[n]) && Unfinished(ins[n + 1]) && AllUnfinished(ins[n + 2..])
  {
    hide Unfinished;
  }

  lemma HelloFrom(u: Top, b: Input, c: Input, d: seq<Input>, pacing: nat)
    requires Moderate(pacing) && Early(u, pacing - 1) && Unfinished(b) && Unfinished(c) && AllUnfinished(d) && |d| <= 70
    ensures GatedRun(u, [b] + ([c] + d), pacing)
    ensures var w := After(u, [b] + ([c] + d), pacing); HelloAway(w, |d|, pacing + 1 + |d|) && !w.req.request
  {
    hide HelloAway, Early, HelloAsked, Step, Sized, Callable, Gated, Unfinished, AllUnfinished, GatedRun, After;
    HelloStep(u, b, pacing);
    var v := Step(u, b, pacing);
    AskedDelay(u, b, pacing);
    HelloTaken(v, c, pacing);
    AwayRun(Step(v, c, pacing), d, pacing, 0, pacing + 1);
    Prepend(v, c, d, pacing);
    Prepend(u, b, [c] + d, pacing);
  }

  lemma Prepend(t: Top, i: Input, ins: seq<Input>, pacing: nat)
    requires Callable(t, i) && Gated(t, i) && GatedRun(Step(t, i, pacing), ins, pacing)
    ensures GatedRun(t, [i] + ins, pacing) && After(t, [i] + ins, pacing) == After(Step(t, i, pacing), ins, pacing)
  {
    hide Step, Gated;
    assert ([i] + ins)[1..] == ins;
  }

  lemma AskedDelay(t: Top, i: Input, pacing: nat)
    requires Moderate(pacing) && Early(t, pacing - 1) && Unfinished(i)
    ensures Callable(t, i) && Step(t, i, pacing).delay == pacing
  {
    hide AfterFrame, Inv, Sized, Builders, D.TxStep;
    EarlyMac(t, i, pacing - 1);
    HelloBuilders(AfterFrame(t, i), pacing, i.junk2);
  }

  lemma EarlyAtPowerUp(frame: seq<word>)
    requires |frame| == FRAME_BUF_WORDS
    ensures Early(PowerUp(frame), 0)
  {
    TcpTable.InitInv();
  }

  // ---------------------------------------------------------------- what the runs have read

  function BeatsOf(ins: seq<Input>): seq<Option<Beat>> {
    if ins == [] then [] else [ins[0].beat] + BeatsOf(ins[1..])
  }

  lemma {:induction false} ChannelFed(ch: MacRx.Channel, ins: seq<Input>)
    requires MacRx.Live(ch)
    ensures ChannelAfter(ch, ins) == MacFrames.Feed(ch, MacFrames.Present(BeatsOf(ins))).0
    decreases |ins|
  {
    hide MacRx.Pass, MacRx.Live;
    MacFrames.PassesAreFeed(ch, BeatsOf(ins));
    if ins != [] {
      var (c, a) := MacRx.Pass(ch, true, ins[0].beat);
      assert BeatsOf(ins)[1..] == BeatsOf(ins[1..]);
      MacFrames.PassesAreFeed(c, BeatsOf(ins[1..]));
      ChannelFed(c, ins[1..]);
    }
  }

  /** A run that has read all of f but its last byte. */
  lemma RunReads(t: Top, ins: seq<Input>, pacing: nat, last: Input, f: MacFrames.Frame)
    requires Inv(t) && GatedRun(t, ins, pacing) && MacFrames.Ready(t.ch)
    requires MacFrames.WellFormed(f) && MacRx.ForUs(f.dst)
    requires MacFrames.Present(BeatsOf(ins)) == AllButLast(f) && last.beat == Some(LastBeat(f))
    ensures Completes(t.ch, After(t, ins, pacing).ch, last, f)
  {
    hide Inv, GatedRun, After, MacFrames.Ready, MacRx.Live, MacFrames.WellFormed, AllButLast, LastBeat,
         MacFrames.Feed, ChannelAfter, Brought, AllEvents;
    RunOffers(t, ins, pacing);
    ChannelFed(t.ch, ins);
  }

  lemma ReadyAtPowerUp(frame: seq<word>)
    requires |frame| == FRAME_BUF_WORDS
    ensures MacFrames.Ready(PowerUp(frame).ch) && Inv(PowerUp(frame))
  {
    PowerUpOwes(frame);
  }

  // ---------------------------------------------------------------- torn

  lemma CapturedNow(t: Top, last: Input, c0: MacRx.Channel, f: MacFrames.Frame, m: seq<byte>)
    requires Sized(t) && ValidInput(last) && Completes(c0, t.ch, last, f) && Carries(f, Ip.PROTO_UDP, m) && Datagram(m)
    requires |m| >= 9
    ensures Callable(t, last) && EffectNow(t, last) == Capture && !Asks(EffectNow(t, last))
    ensures var p := WritesNow(t, last); p.at == TX_UDP_BASE + 7 && p.words != [] && MemByte(p.words, 0) == m[8]
  {
    hide AfterMac, FrameNow, Arrived, Ip.Parse, Completes, Datagram, MacTx.Legal, SaneTable, MacRx.Live, Udp.ParseUdp,
         ByteOf;
    HeaderStaged(t, last, c0, f, Ip.PROTO_UDP, m);
    DatagramParsed(FrameNow(t, last), m);
    DatagramLength(m);
  }

  lemma EarlyInFrame(s: MacTx.Tx, k: nat)
    requires s.st != MacTx.Idle && MacTx.Legal(s, BUFFER_DEPTH) && s.nbytes == 48 && !s.vlan
    requires MacWire.Position(s) == k <= 50
    ensures s.sent <= 28
  {
  }

  lemma Differs(s: MacTx.Tx, mem: seq<word>, p: Patch, b: byte)
    requires |mem| == BUFFER_DEPTH && s.wbase == TX_UDP_BASE && s.nbytes == 48 && s.sent <= 28 && Fits(p)
    requires p.at == TX_UDP_BASE + 7 && p.words != [] && MemByte(p.words, 0) == b != 0x48
    requires mem[TX_UDP_BASE + 7] == Udp.HELLO_WORDS[0]
    ensures !Agrees(mem, p, s.wbase, s.sent, s.nbytes)
  {
    hide ByteOf;
    MemByteAt(mem, TX_UDP_BASE + 7, 0);
    HelloLetter();
    var k := 4 * (TX_UDP_BASE + 7);
    assert MemByte(mem, k) == 0x48 && MemByte(p.words, k - 4 * p.at) == b;
  }

  lemma HelloLetter()
    ensures ByteOf(Udp.HELLO_WORDS[0], 0) == 0x48
  {
  }

  /** A frame torn: from power-up a HELLO frame is on its way, no more than 50 of its bytes are written, and a datagram
      for the echo port whose first byte is not H completes. What was owed does not go out any more. */
  lemma HelloTorn(frame: seq<word>, ins: seq<Input>, last: Input, pacing: nat, k: nat, f: MacFrames.Frame, m: seq<byte>)
    requires |frame| == FRAME_BUF_WORDS && Moderate(pacing) && k < 50 && |ins| == pacing + 1 + k && AllUnfinished(ins)
    requires MacFrames.WellFormed(f) && MacRx.ForUs(f.dst) && ValidInput(last)
    requires MacFrames.Present(BeatsOf(ins)) == AllButLast(f) && last.beat == Some(LastBeat(f))
    requires Carries(f, Ip.PROTO_UDP, m) && Datagram(m) && |m| >= 9 && m[8] != 0x48
    ensures GatedRun(PowerUp(frame), ins, pacing)
    ensures var t := After(PowerUp(frame), ins, pacing);
      && Inv(t) && Callable(t, last)
      && Rest(t) + (Replied(t, last) + Built(t, last, pacing)) != Written(t) + Future(Step(t, last, pacing))
  {
    hide Inv, GatedRun, After, MacFrames.Ready, MacRx.Live, MacFrames.WellFormed, AllButLast, LastBeat, Step, Rest,
         Replied, Built, Future, Written, Callable, PowerUp, Unfinished, Carries, Datagram, Completes, Agrees,
         EffectNow, WritesNow, AfterMac, MacTx.Legal, MacWire.Position, MacWire.Streaming, Busy, MemByte;
    ReadyAtPowerUp(frame);
    HelloRun(frame, ins, pacing, k);
    RunReads(PowerUp(frame), ins, pacing, last, f);
    var t := After(PowerUp(frame), ins, pacing);
    CapturedNow(t, last, PowerUp(frame).ch, f, m);
    AwayMac(t, last, k, pacing + 1 + k);
    var a := AfterMac(t, last);
    EarlyInFrame(a.mac, k + 1);
    Differs(a.mac, a.buffer, WritesNow(t, last), m[8]);
    CallKeepsIff(t, last, pacing);
  }

  // ---------------------------------------------------------------- lost

  lemma QuestionNow(t: Top, last: Input, c0: MacRx.Channel, f: MacFrames.Frame)
    requires Sized(t) && ValidInput(last) && Completes(c0, t.ch, last, f) && Question(f)
    ensures Callable(t, last) && EffectNow(t, last) == Reply(TX_SCRATCH_BASE) && Asks(EffectNow(t, last))
    ensures Udp.Asks(Udp.ParseArp(FrameNow(t, last))) && Arrived(t, last) == Some(ETHERTYPE_ARP)
  {
    hide AfterMac, FrameNow, Arrived, Completes, MacTx.Legal, SaneTable, MacRx.Live, WordOf, MemByte, MacOf, U16Of;
    FrameStaged(t, last, c0, f);
    var all, a := ReadBytes(FrameNow(t, last), 0, |f.rest|), ReadBytes(FrameNow(t, last), 0, 28);
    assert a == all[..28];
  }

  /** The handler's part of the first answer. */
  lemma AnswerAsked(t: Top, last: Input, c0: MacRx.Channel, f: MacFrames.Frame, k: nat, delay: nat)
    requires HelloAway(t, k, delay) && delay < DHCP_DELAY - 1 && k < 70 && !t.req.request
    requires ValidInput(last) && Completes(c0, t.ch, last, f) && Question(f)
    ensures Callable(t, last) && Gated(t, last)
    ensures var a, g := AfterMac(t, last), AfterFrame(t, last);
      && g.req.request && g.buffer[TX_UDP_BASE + 7] == a.buffer[TX_UDP_BASE + 7]
          && |g.buffer| == |a.buffer| == BUFFER_DEPTH
      && g.mac == a.mac && g.client == a.client && g.start == a.start && g.delay == a.delay
  {
    hide Inv, SaneTable, MacRx.Live, MacRx.Pass, MacTx.Legal, MacWire.Position, AfterMac, Completes, Question,
         FrameNow, Arrived, EffectOf, Learn, Udp.AnswerBuffer, Udp.ParseArp, Udp.Asks, Busy;
    QuestionNow(t, last, c0, f);
    AwayMac(t, last, k, delay);
    AnswerElsewhere(AfterMac(t, last).buffer, FrameNow(t, last));
  }

  /** The first question is answered behind the HELLO. */
  lemma FirstAnswered(t: Top, last: Input, pacing: nat, c0: MacRx.Channel, f: MacFrames.Frame, k: nat, delay: nat)
    requires HelloAway(t, k, delay) && delay < DHCP_DELAY - 1 && k < 70 && !t.req.request
    requires ValidInput(last) && Completes(c0, t.ch, last, f) && Question(f)
    ensures Callable(t, last) && Gated(t, last) && HelloAway(Step(t, last, pacing), k + 1, delay + 1)
    ensures Step(t, last, pacing).req.request && MacFrames.Ready(Step(t, last, pacing).ch)
  {
    hide Inv, Sized, MacRx.Pass, Builders, D.TxStep, MacWire.Position, AfterMac, AfterFrame, Callable, Gated,
         Completes, Question, MacFrames.Ready, Busy, MacFrames.After;
    AnswerAsked(t, last, c0, f, k, delay);
    AwayMac(t, last, k, delay);
    StepOwes(t, last, pacing);
    BusyStep(t, last, pacing);
    LastByte(c0, t.ch, last, f);
    ChannelAlone(t, last, pacing);
  }

  /** On a busy MAC with a request waiting the builders do nothing. */
  lemma BusyStep(t: Top, i: Input, pacing: nat)
    requires Callable(t, i) && Busy(t) && AfterFrame(t, i).req.request
    ensures Step(t, i, pacing) == AfterFrame(t, i)
  {
    hide AfterFrame, Builders, D.TxStep, Busy;
    BusyBuilders(AfterFrame(t, i), pacing, i.junk2);
  }

  lemma AnswerElsewhere(m: seq<word>, frame: seq<word>)
    requires |m| == BUFFER_DEPTH && |frame| == FRAME_BUF_WORDS
    ensures Udp.AnswerBuffer(m, Udp.ParseArp(frame))[TX_UDP_BASE + 7] == m[TX_UDP_BASE + 7]
  {
    hide WordsOf, Udp.ArpBody, MacOf, WordOf, U16Of, MemByte;
  }

  /** With a reply waiting behind the HELLO a second question does away with it. */
  lemma SecondLost(u: Top, more: seq<Input>, end: Input, pacing: nat, k: nat, delay: nat, g: MacFrames.Frame)
    requires HelloAway(u, k, delay) && u.req.request && MacFrames.Ready(u.ch) && k + |more| < 70
    requires delay + |more| < DHCP_DELAY - 1 && AllUnfinished(more) && ValidInput(end)
    requires MacFrames.WellFormed(g) && MacRx.ForUs(g.dst) && Question(g)
    requires MacFrames.Present(BeatsOf(more)) == AllButLast(g) && end.beat == Some(LastBeat(g))
    ensures GatedRun(u, more, pacing)
    ensures var t := After(u, more, pacing);
      && Inv(t) && Callable(t, end)
      && Rest(t) + (Replied(t, end) + Built(t, end, pacing)) != Written(t) + Future(Step(t, end, pacing))
  {
    hide Inv, GatedRun, After, MacFrames.Ready, MacRx.Live, MacFrames.WellFormed, AllButLast, LastBeat, Step, Rest,
         Replied, Built, Future, Written, Callable, Gated, Unfinished, Question, Completes, EffectNow, WritesNow,
         AfterMac, HelloAway, Sized, Undisturbed, Asks, Busy, MacWire.Position, MacTx.Legal, FrameNow, Arrived,
         Udp.Asks, Udp.ParseArp;
    AwaySized(u, k, delay);
    AwayRun(u, more, pacing, k, delay);
    RunReads(u, more, pacing, end, g);
    var v := After(u, more, pacing);
    AwaySized(v, k + |more|, delay + |more|);
    QuestionNow(v, end, u.ch, g);
    AwayMac(v, end, k + |more|, delay + |more|);
    var a := AfterMac(v, end);
    AwayLegal(a);
    NotFree(a.mac, a.req, a.buffer, EffectNow(v, end), WritesNow(v, end));
    CallKeepsIff(v, end, pacing);
  }

  /** A reply lost: from power-up a HELLO frame is on its way, an ARP question about the board completes, and a second
      one before the HELLO is through. The first answer never goes out. */
  lemma ReplyLost(frame: seq<word>, ins: seq<Input>, last: Input, more: seq<Input>, end: Input, pacing: nat, k: nat,
                  f: MacFrames.Frame, g: MacFrames.Frame)
    requires |frame| == FRAME_BUF_WORDS && Moderate(pacing) && |ins| == pacing + 1 + k && k + |more| < 69
    requires AllUnfinished(ins) && AllUnfinished(more) && ValidInput(last) && ValidInput(end)
    requires MacFrames.WellFormed(f) && MacRx.ForUs(f.dst) && Question(f)
    requires MacFrames.WellFormed(g) && MacRx.ForUs(g.dst) && Question(g)
    requires MacFrames.Present(BeatsOf(ins)) == AllButLast(f) && last.beat == Some(LastBeat(f))
    requires MacFrames.Present(BeatsOf(more)) == AllButLast(g) && end.beat == Some(LastBeat(g))
    ensures GatedRun(PowerUp(frame), ins + ([last] + more), pacing)
    ensures var t := After(PowerUp(frame), ins + ([last] + more), pacing);
      && Inv(t) && Callable(t, end)
      && Rest(t) + (Replied(t, end) + Built(t, end, pacing)) != Written(t) + Future(Step(t, end, pacing))
  {
    hide Inv, GatedRun, After, MacFrames.Ready, MacRx.Live, MacFrames.WellFormed, AllButLast, LastBeat, Step, Rest,
         Replied, Built, Future, Written, Callable, Gated, PowerUp, AllUnfinished, Question, Completes, HelloAway,
         Sized, BeatsOf, MacFrames.Present, ValidInput, MacRx.ForUs, Line;
    var p := PowerUp(frame);
    ReadyAtPowerUp(frame);
    HelloRun(frame, ins, pacing, k);
    RunReads(p, ins, pacing, last, f);
    var t := After(p, ins, pacing);
    FirstAnswered(t, last, pacing, p.ch, f, k, pacing + 1 + k);
    SecondLost(Step(t, last, pacing), more, end, pacing, k + 1, pacing + 2 + k, g);
    Prepend(t, last, more, pacing);
    RunsJoin(p, ins, [last] + more, pacing);
  }

  lemma AwayLegal(t: Top)
    requires Sized(t)
    ensures |t.buffer| == BUFFER_DEPTH && MacTx.Legal(t.mac, BUFFER_DEPTH) && MacTx.LegalReq(t.req, BUFFER_DEPTH)
  {
  }

  lemma NotFree(s: MacTx.Tx, r: TxReq, mem: seq<word>, e: Effect, p: Patch)
    requires |mem| == BUFFER_DEPTH && MacTx.Legal(s, BUFFER_DEPTH) && MacTx.LegalReq(r, BUFFER_DEPTH)
    requires Asks(e) && r.request
    ensures !Undisturbed(s, r, mem, e, p)
  {
    hide Agrees, MacTx.Legal;
  }
}
