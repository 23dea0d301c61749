/** One call outside the gate: exactly when a received frame loses or tears a frame that is under way or waiting. */
module EchoDisturb {
  import opened Bytes
  import opened Layout
  import opened Store
  import opened Arp
  import opened Echo
  import opened EchoIntegrity
  import D = Dhcp
  import Icmp
  import Igmp
  import Ip
  import MacRx
  import MacTx
  import MacWire
  import Tcp
  import TcpFrame
  import TcpTable
  import Udp

  // ---------------------------------------------------------------- what the MAC will write

  /** Passes until nothing is owed. */
  ghost function Passes(t: Top): nat
    requires Sized(t)
  {
    (if t.mac.st == MacTx.Idle then 0 else MacWire.Left(t.mac, BUFFER_DEPTH))
    + if t.req.request then |MacWire.WireOf(t.req, t.buffer)| + 1 else 0
  }

  /** What the MAC writes from here on if nobody touches the buffer or the register any more. */
  ghost function Future(t: Top): seq<Beat>
    requires Sized(t)
  {
    MacWire.Stream(t.mac, t.req, t.buffer, Passes(t)).2
  }

  /** The part of it that belongs to the frame in flight. */
  ghost function Flight(s: MacTx.Tx, buffer: seq<word>): seq<Beat>
    requires |buffer| == BUFFER_DEPTH && MacTx.Legal(s, BUFFER_DEPTH)
  {
    if s.st == MacTx.Idle then [] else MacWire.Stream(s, NO_REQUEST, buffer, MacWire.Left(s, BUFFER_DEPTH)).2
  }

  lemma {:induction false} StreamJoin(s: MacTx.Tx, r: TxReq, m: seq<word>, n: nat, k: nat)
    requires MacTx.Legal(s, |m|) && MacTx.LegalReq(r, |m|)
    ensures var x := MacWire.Stream(s, r, m, n);
      && MacTx.Legal(x.0, |m|) && MacTx.LegalReq(x.1, |m|)
      && MacWire.Stream(s, r, m, n + k).2 == x.2 + MacWire.Stream(x.0, x.1, m, k).2
    decreases n
  {
    hide MacTx.TxStep, MacTx.Legal;
    if n > 0 {
      var (s', r', out) := MacTx.TxStep(s, r, m);
      MacWire.StepLegal(s, r, m);
      StreamJoin(s', r', m, n - 1, k);
      var x := MacWire.Stream(s', r', m, n - 1);
      var y := MacWire.Stream(x.0, x.1, m, k).2;
      var h := if out.Some? then [out.value] else [];
      assert (h + x.2) + y == h + (x.2 + y);
    } else {
      assert [] + MacWire.Stream(s, r, m, k).2 == MacWire.Stream(s, r, m, k).2;
    }
  }

  /** A frame in flight leaves the register alone, writes a byte a pass, and ends idle. */
  lemma {:induction false} FlightEnds(s: MacTx.Tx, r: TxReq, m: seq<word>)
    requires |m| == BUFFER_DEPTH && MacTx.Legal(s, |m|) && s.st != MacTx.Idle && MacTx.LegalReq(r, |m|)
    ensures var x := MacWire.Stream(s, r, m, MacWire.Left(s, |m|));
      x.0.st == MacTx.Idle && x.1 == r && x.2 == Flight(s, m) && |x.2| == MacWire.Left(s, |m|)
    decreases MacWire.Left(s, |m|)
  {
    hide MacTx.TxStep, MacWire.Left, MacTx.Legal;
    var n := MacWire.Left(s, |m|);
    MacWire.StepAhead(s, r, m, m);
    MacWire.StepAhead(s, NO_REQUEST, m, m);
    SameStep(s, r, m);
    var x := MacTx.TxStep(s, r, m);
    if x.0.st == MacTx.Idle {
      assert MacWire.Stream(x.0, r, m, 0).2 == MacWire.Stream(x.0, NO_REQUEST, m, 0).2 == [];
    } else {
      FlightEnds(x.0, r, m);
    }
  }

  lemma SameStep(s: MacTx.Tx, r: TxReq, m: seq<word>)
    requires s.st != MacTx.Idle && MacTx.Legal(s, |m|)
    ensures MacTx.TxStep(s, r, m).0 == MacTx.TxStep(s, NO_REQUEST, m).0
    ensures MacTx.TxStep(s, r, m).2 == MacTx.TxStep(s, NO_REQUEST, m).2
  {
    hide MacTx.HeaderByte, MacTx.DataByte, MacTx.PreambleByte;
  }

  /** What will be written: the rest of the frame in flight, then the waiting frame. */
  lemma FutureForm(t: Top)
    requires Sized(t)
    ensures Future(t) == Flight(t.mac, t.buffer) + Waiting(t.req, t.buffer)
  {
    hide MacTx.TxStep, MacWire.WireOf, MacWire.Left, MacTx.Legal, SaneTable, MacWire.Stream, Flight;
    var n := if t.mac.st == MacTx.Idle then 0 else MacWire.Left(t.mac, BUFFER_DEPTH);
    StreamJoin(t.mac, t.req, t.buffer, n, Passes(t) - n);
    if t.mac.st == MacTx.Idle {
      NoPasses(t.mac, t.req, t.buffer);
    } else {
      FlightEnds(t.mac, t.req, t.buffer);
    }
    var x := MacWire.Stream(t.mac, t.req, t.buffer, n);
    if t.req.request {
      MacWire.SendsWire(x.0, t.req, t.buffer);
    } else {
      NoPasses(x.0, x.1, t.buffer);
    }
  }

  lemma NoPasses(s: MacTx.Tx, r: TxReq, m: seq<word>)
    requires MacTx.Legal(s, |m|) && MacTx.LegalReq(r, |m|) && |m| == BUFFER_DEPTH
    ensures MacWire.Stream(s, r, m, 0) == (s, r, [])
    ensures s.st == MacTx.Idle ==> Flight(s, m) == []
  {
  }

  /** In order that is what is owed. */
  lemma RestIsFuture(t: Top)
    requires Sized(t) && Orderly(t.mac, t.req, t.buffer)
    ensures Future(t) == Rest(t)
  {
    hide MacWire.Streaming, MacWire.WireOf, SaneTable, Inside, MacWire.Stream, MacTx.Legal, Future;
    FutureForm(t);
    if t.mac.st != MacTx.Idle {
      MacWire.StreamedLeft(t.mac, NO_REQUEST, t.buffer);
    }
  }

  // ---------------------------------------------------------------- what a received frame writes

  /** Words put into the buffer from an address on. */
  datatype Patch = Patch(at: nat, words: seq<word>)

  const UNWRITTEN: Patch := Patch(0, [])

  predicate Fits(p: Patch) { p.at + |p.words| <= BUFFER_DEPTH }

  /** The words handling a received frame writes: the built reply, or the captured payload. */
  ghost function Writes(t: Top, eth: u16, frame: seq<word>, junk: seq<byte>): (p: Patch)
    requires Sized(t) && |frame| == FRAME_BUF_WORDS && Manageable(eth, frame) && |junk| == TcpFrame.SCRATCH
    ensures Fits(p)
  {
    var ip := HeaderOfFrame(frame);
    if eth == ETHERTYPE_ARP then
      var a := Udp.ParseArp(frame);
      if Udp.Asks(a) then Patch(TX_SCRATCH_BASE, WordsOf(Udp.ArpBody(2, a.tha, a.tpa), 7)) else UNWRITTEN
    else if eth != ETHERTYPE_IPV4 || !ip.valid then UNWRITTEN
    else if ip.protocol == Ip.PROTO_ICMP then if Icmp.Answers(frame) then PingWrites(ip, frame) else UNWRITTEN
    else if ip.protocol == Ip.PROTO_IGMP then
      if Igmp.Asked(frame) then
        Patch(TX_SCRATCH_BASE, WordsOf(Igmp.Header(), 5) + WordsOf(Igmp.ReportBytes(Igmp.Kind(frame)), 2))
      else UNWRITTEN
    else if ip.protocol == Ip.PROTO_TCP then SegmentWrites(t, ip, frame, junk)
    else if ip.protocol == Ip.PROTO_UDP && Udp.ParseUdp(frame).valid then
      Patch(TX_UDP_BASE + 7, frame[7..7 + (Udp.ParseUdp(frame).payloadLen + 3) / 4])
    else UNWRITTEN
  }

  function PingWrites(ip: Ip.IpRx, frame: seq<word>): (p: Patch)
    requires |frame| == FRAME_BUF_WORDS && 20 <= ip.totalLen <= 20 + Icmp.MAX_MESSAGE
    ensures Fits(p)
  {
    var len := ip.totalLen - 20;
    Patch(TX_SCRATCH_BASE,
          WordsOf(Ip.Header(ip.totalLen, 0, 128, Ip.PROTO_ICMP, BOARD_IP, ip.srcIp), 5)
          + Icmp.ReplyWords(frame, len, Icmp.ReplyChecksum(frame, len)))
  }

  ghost function SegmentWrites(t: Top, ip: Ip.IpRx, frame: seq<word>, junk: seq<byte>): (p: Patch)
    requires Sized(t) && |frame| == FRAME_BUF_WORDS && TcpFrame.LengthsFit(ip, frame) && |junk| == TcpFrame.SCRATCH
    ensures Fits(p)
  {
    TcpFrame.ParsedValid(ip, frame);
    ReceiveSendable(t.tcp, TcpFrame.ParseSegment(ip, frame));
    match Tcp.Receive(t.tcp, TcpFrame.ParseSegment(ip, frame)).1
    case None => UNWRITTEN
    case Some(o) =>
      var s := TcpFrame.SegmentBytes(o.conn, o.flags, o.payload);
      Patch(TX_UDP_BASE, WordsOf(TcpFrame.IpHeader(o.conn, |s|), 5) + WordsOf(s + junk[|s|..], (|s| + 3) / 4))
  }

  lemma StoredTwice(m: seq<word>, base: nat, h: seq<word>, w: seq<word>)
    requires base + |h| + |w| <= |m|
    ensures Stored(Stored(m, base + |h|, w), base, h) == Stored(m, base, h + w)
    ensures Stored(Stored(m, base, h), base + |h|, w) == Stored(m, base, h + w)
  {
  }

  lemma StoredNothing(m: seq<word>)
    ensures Stored(m, 0, []) == m
  {
  }

  predicate WrittenAs(t: Top, u: Top, p: Patch)
    requires |t.buffer| == BUFFER_DEPTH && Fits(p)
  {
    u.buffer == Stored(t.buffer, p.at, p.words)
  }

  /** The buffer after a received frame. */
  lemma WritesAre(t: Top, eth: u16, frame: seq<word>, junk: seq<byte>)
    requires Sized(t) && |frame| == FRAME_BUF_WORDS && Manageable(eth, frame) && |junk| == TcpFrame.SCRATCH
    ensures WrittenAs(t, Dispatch(t, eth, frame, junk), Writes(t, eth, frame, junk))
  {
    hide SaneTable, MacTx.Legal, Icmp.Answers, Answer, AfterLookup, Learn, TcpFrame.LengthsFit, WordsOf, Ip.Parse,
         Udp.ParseUdp, Udp.ParseArp, Udp.ArpBody, Stored, SegmentWrites, OnTcp, Icmp.ReplyChecksum, Icmp.ReplyWords,
         Ip.Header, Igmp.ReportBytes;
    StoredNothing(t.buffer);
    var ip := HeaderOfFrame(frame);
    if eth == ETHERTYPE_IPV4 && ip.valid {
      if ip.protocol == Ip.PROTO_ICMP && Icmp.Answers(frame) {
        var len := ip.totalLen - 20;
        StoredTwice(t.buffer, TX_SCRATCH_BASE,
                    WordsOf(Ip.Header(ip.totalLen, 0, 128, Ip.PROTO_ICMP, BOARD_IP, ip.srcIp), 5),
                    Icmp.ReplyWords(frame, len, Icmp.ReplyChecksum(frame, len)));
      } else if ip.protocol == Ip.PROTO_IGMP {
        StoredTwice(t.buffer, TX_SCRATCH_BASE, WordsOf(Igmp.Header(), 5),
                    WordsOf(Igmp.ReportBytes(Igmp.Kind(frame)), 2));
      } else if ip.protocol == Ip.PROTO_TCP {
        SegmentWritesAre(t, ip, frame, junk);
      }
    }
  }

  lemma SegmentWritesAre(t: Top, ip: Ip.IpRx, frame: seq<word>, junk: seq<byte>)
    requires Sized(t) && |frame| == FRAME_BUF_WORDS && TcpFrame.LengthsFit(ip, frame) && |junk| == TcpFrame.SCRATCH
    ensures WrittenAs(t, OnTcp(t, ip, frame, junk), SegmentWrites(t, ip, frame, junk))
  {
    hide MacTx.Legal, SaneTable, Tcp.Receive, TcpFrame.ParseSegment, TcpFrame.SegmentBytes, TcpFrame.IpHeader,
         WordsOf, Answer, AfterLookup, TcpFrame.LengthsFit, Stored;
    StoredNothing(t.buffer);
    TcpFrame.ParsedValid(ip, frame);
    ReceiveSendable(t.tcp, TcpFrame.ParseSegment(ip, frame));
    var out := Tcp.Receive(t.tcp, TcpFrame.ParseSegment(ip, frame)).1;
    if out.Some? {
      var o := out.value;
      var s := TcpFrame.SegmentBytes(o.conn, o.flags, o.payload);
      var h, w := WordsOf(TcpFrame.IpHeader(o.conn, |s|), 5), WordsOf(s + junk[|s|..], (|s| + 3) / 4);
      StoredTwice(t.buffer, TX_UDP_BASE, h, w);
    }
  }

  // ---------------------------------------------------------------- bytes under way against bytes written

  /** Where the patch covers bytes lo to hi of a frame, it says the same as the buffer. */
  predicate Agrees(mem: seq<word>, p: Patch, base: nat, lo: nat, hi: nat)
    requires 4 * base + hi <= 4 * |mem|
  {
    forall k :: 4 * base + lo <= k < 4 * base + hi && 4 * p.at <= k < 4 * (p.at + |p.words|) ==>
      MemByte(p.words, k - 4 * p.at) == MemByte(mem, k)
  }

  lemma StoredByte(mem: seq<word>, p: Patch, k: nat)
    requires p.at + |p.words| <= |mem| && k < 4 * |mem|
    ensures MemByte(Stored(mem, p.at, p.words), k)
         == if 4 * p.at <= k < 4 * (p.at + |p.words|) then MemByte(p.words, k - 4 * p.at) else MemByte(mem, k)
  {
    hide ByteOf;
  }

  lemma AgreesIff(mem: seq<word>, p: Patch, base: nat, lo: nat, hi: nat)
    requires p.at + |p.words| <= |mem| && 4 * base + hi <= 4 * |mem|
    ensures var a, b := ReadBytes(mem, base, hi), ReadBytes(Stored(mem, p.at, p.words), base, hi);
      Agrees(mem, p, base, lo, hi) <==> forall i :: lo <= i < hi ==> a[i] == b[i]
  {
    hide MemByte, Stored;
    var a, b := ReadBytes(mem, base, hi), ReadBytes(Stored(mem, p.at, p.words), base, hi);
    if Agrees(mem, p, base, lo, hi) {
      forall i | lo <= i < hi ensures a[i] == b[i] {
        StoredByte(mem, p, 4 * base + i);
      }
    }
    if forall i :: lo <= i < hi ==> a[i] == b[i] {
      forall k | 4 * base + lo <= k < 4 * base + hi && 4 * p.at <= k < 4 * (p.at + |p.words|)
        ensures MemByte(p.words, k - 4 * p.at) == MemByte(mem, k)
      {
        StoredByte(mem, p, k);
        assert a[k - 4 * base] == b[k - 4 * base];
      }
    }
  }

  /** Two payloads of one request give the same wire frame only if they are the same. */
  lemma WireTells(r: TxReq, p: seq<byte>, q: seq<byte>)
    requires |p| == |q| == r.len && MacTx.Wire(r, p) == MacTx.Wire(r, q)
    ensures p == q
  {
    hide MacTx.Wire, MacTx.Body;
    MacWire.BodyLength(r, p);
    MacWire.BodyLength(r, q);
    forall k | 0 <= k < |p| ensures p[k] == q[k] {
      MacWire.BodyTail(r, p, k);
      MacWire.BodyTail(r, q, k);
      MacWire.WireBodyAt(r, p, MacTx.HeaderLen(r.vlan) + k);
      MacWire.WireBodyAt(r, q, MacTx.HeaderLen(r.vlan) + k);
    }
  }

  // ---------------------------------------------------------------- one call

  /** What the call's received frame does, if there is one, and what it writes. */
  ghost function EffectNow(t: Top, i: Input): Effect
    requires Callable(t, i)
  {
    if Arrived(t, i).None? then Nothing else EffectOf(AfterMac(t, i).tcp, Arrived(t, i).value, FrameNow(t, i))
  }

  ghost function WritesNow(t: Top, i: Input): (p: Patch)
    requires Callable(t, i)
    ensures Fits(p)
  {
    if Arrived(t, i).None? then UNWRITTEN else Writes(AfterMac(t, i), Arrived(t, i).value, FrameNow(t, i), i.junk1)
  }

  /** The condition: a reply finds the request register free, and what is written over bytes of a payload that are still
      to be sent, of the frame in flight or of the waiting one, says the same as before. */
  ghost predicate Undisturbed(s: MacTx.Tx, r: TxReq, mem: seq<word>, e: Effect, p: Patch)
    requires |mem| == BUFFER_DEPTH && MacTx.Legal(s, BUFFER_DEPTH) && MacTx.LegalReq(r, BUFFER_DEPTH)
  {
    && (Asks(e) ==> !r.request)
    && (s.st != MacTx.Idle ==> Agrees(mem, p, s.wbase, s.sent, s.nbytes))
    && (r.request ==> Agrees(mem, p, r.addr, 0, r.len))
  }

  /** The frames a call asks for: by its received frame, and by a builder. */
  ghost function Replied(t: Top, i: Input): seq<Beat>
    requires Callable(t, i)
  {
    if Asks(EffectNow(t, i)) then Waiting(AfterFrame(t, i).req, AfterFrame(t, i).buffer) else []
  }

  ghost function Built(t: Top, i: Input, pacing: nat): seq<Beat>
    requires Callable(t, i)
  {
    var u := Step(t, i, pacing);
    if AfterFrame(t, i).req.request then [] else Waiting(u.req, u.buffer)
  }

  /** The received frame's doing, on the transmit side. */
  lemma FrameDoes(t: Top, i: Input)
    requires Callable(t, i) && Inv(t)
    ensures var a, f, e := AfterMac(t, i), AfterFrame(t, i), EffectNow(t, i);
      && f.mac == a.mac && f.client == a.client && f.start == a.start && f.ready == a.ready
      && f.buffer == Stored(a.buffer, WritesNow(t, i).at, WritesNow(t, i).words)
      && if Asks(e) then f.req.request else f.req == a.req
  {
    hide AfterMac, Dispatch, FrameNow, Manageable, EffectOf, Inside, Confined, MacRx.Live, SaneTable, Writes, Stored,
         MacTx.Legal, Inv;
    var a := AfterMac(t, i);
    StoredNothing(a.buffer);
    if Arrived(t, i).Some? {
      DispatchEffect(a, Arrived(t, i).value, FrameNow(t, i), i.junk1);
      WritesAre(a, Arrived(t, i).value, FrameNow(t, i), i.junk1);
    }
  }

  /** The frame in flight goes out as asked for exactly if what is written agrees with what is still to be read. */
  lemma FlightKeptIff(s: MacTx.Tx, mem: seq<word>, p: Patch)
    requires |mem| == BUFFER_DEPTH && MacTx.Legal(s, BUFFER_DEPTH) && Orderly(s, NO_REQUEST, mem) && Fits(p)
    ensures |Flight(s, Stored(mem, p.at, p.words))| == |Remaining(s, mem)|
    ensures Flight(s, Stored(mem, p.at, p.words)) == Remaining(s, mem)
        <==> (s.st != MacTx.Idle ==> Agrees(mem, p, s.wbase, s.sent, s.nbytes))
  {
    hide MacWire.Streaming, MacWire.WireOf, MacTx.Legal, MacWire.Stream, Stored, Agrees, MacWire.Left,
         MacWire.Position, Inside;
    if s.st != MacTx.Idle {
      var m := Stored(mem, p.at, p.words);
      MacWire.NotIdle(s, mem);
      FlightEnds(s, NO_REQUEST, m);
      FlightEnds(s, NO_REQUEST, mem);
      MacWire.TornIff(s, NO_REQUEST, mem, m);
      MacWire.StreamedLeft(s, NO_REQUEST, mem);
      AgreesIff(mem, p, s.wbase, s.sent, s.nbytes);
    }
  }

  lemma WaitingKeptIff(r: TxReq, mem: seq<word>, p: Patch)
    requires |mem| == BUFFER_DEPTH && MacTx.LegalReq(r, BUFFER_DEPTH) && Fits(p)
    ensures |Waiting(r, Stored(mem, p.at, p.words))| == |Waiting(r, mem)|
    ensures Waiting(r, Stored(mem, p.at, p.words)) == Waiting(r, mem)
        <==> (r.request ==> Agrees(mem, p, r.addr, 0, r.len))
  {
    hide MacTx.Wire, Stored, Agrees, MemByte;
    if r.request {
      var m := Stored(mem, p.at, p.words);
      var a, b := MacWire.PayloadOf(r, mem), MacWire.PayloadOf(r, m);
      AgreesIff(mem, p, r.addr, 0, r.len);
      assert Agrees(mem, p, r.addr, 0, r.len) <==> a == b;
      MacWire.BodyLength(r, a);
      MacWire.BodyLength(r, b);
      if MacTx.Wire(r, a) == MacTx.Wire(r, b) {
        WireTells(r, a, b);
      }
    }
  }

  lemma BothIff(a: seq<Beat>, b: seq<Beat>, x: seq<Beat>, y: seq<Beat>)
    requires |a| == |x|
    ensures a + b == x + y <==> a == x && b == y
  {
    if a + b == x + y {
      assert a == (a + b)[..|a|] && x == (x + y)[..|a|] && b == (a + b)[|a|..] && y == (x + y)[|a|..];
    }
  }

  lemma WaitingLength(r: TxReq, mem: seq<word>)
    requires |mem| == BUFFER_DEPTH && MacTx.LegalReq(r, BUFFER_DEPTH) && r.request
    ensures Waiting(r, mem) != []
  {
    hide MacTx.Wire;
    MacWire.BodyLength(r, MacWire.PayloadOf(r, mem));
  }

  /** The handling of the received frame leaves what is owed, with the reply asked for behind it, exactly then. */
  lemma FrameKeepsIff(t: Top, i: Input)
    requires Callable(t, i) && Inv(t)
    ensures var a := AfterMac(t, i);
      Rest(a) + Replied(t, i) == Future(AfterFrame(t, i))
      <==> Undisturbed(a.mac, a.req, a.buffer, EffectNow(t, i), WritesNow(t, i))
  {
    hide AfterMac, AfterFrame, EffectNow, WritesNow, Callable, Inv, MacTx.Legal, SaneTable, Agrees, Stored, Remaining,
         Waiting, Future, Orderly, Flight;
    AfterMacOwes(t, i);
    FrameDoes(t, i);
    var a, f, p := AfterMac(t, i), AfterFrame(t, i), WritesNow(t, i);
    FutureForm(f);
    OrderlyAlone(a.mac, a.req, a.buffer);
    FlightKeptIff(a.mac, a.buffer, p);
    WaitingKeptIff(a.req, a.buffer, p);
    var rem, w, fl := Remaining(a.mac, a.buffer), Waiting(a.req, a.buffer), Flight(f.mac, f.buffer);
    if Asks(EffectNow(t, i)) {
      NoWaiting(a.req, a.buffer);
      if a.req.request {
        WaitingLength(a.req, a.buffer);
        assert |(rem + w) + Replied(t, i)| > |fl + Waiting(f.req, f.buffer)|;
        assert Rest(a) + Replied(t, i) == (rem + w) + Replied(t, i);
      } else {
        assert rem + w == rem;
        BothIff(rem, Replied(t, i), fl, Replied(t, i));
      }
    } else {
      assert rem + w + [] == rem + w;
      BothIff(rem, w, fl, Waiting(f.req, f.buffer));
    }
  }

  lemma OrderlyAlone(s: MacTx.Tx, r: TxReq, mem: seq<word>)
    requires |mem| == BUFFER_DEPTH && MacTx.Legal(s, BUFFER_DEPTH) && Orderly(s, r, mem)
    ensures Orderly(s, NO_REQUEST, mem)
  {
    hide MacWire.Streaming, Inside;
  }

  lemma NoWaiting(r: TxReq, mem: seq<word>)
    requires |mem| == BUFFER_DEPTH && MacTx.LegalReq(r, BUFFER_DEPTH)
    ensures !r.request ==> Waiting(r, mem) == []
  {
  }

  /** On a busy MAC only the DHCP client builds, and not under its own frame in flight. */
  lemma DhcpBeside(f: Top)
    requires Sized(f) && FirstPhase(f.client) && (f.mac.st != MacTx.Idle ==> Inside(MacWire.Latched(f.mac)))
    requires f.mac.st != MacTx.Idle && f.mac.wbase == DHCP_FRAME_BASE ==>
      f.client.st == D.WaitOffer && f.client.timer <= MacWire.Position(f.mac)
    ensures Flight(f.mac, DhcpTurn(f).buffer) == Flight(f.mac, f.buffer)
  {
    hide MacTx.Legal, SaneTable, MacRx.Live, Flight, D.TxStep, D.FrameBuffer, MacWire.Position, D.Sane;
    ClientTurn(f.client, f.start, f.mac);
    var (c, sent) := D.TxStep(f.client, f.start);
    if sent.Some? && f.mac.st != MacTx.Idle {
      FrameConfined(f.buffer, c, sent.value, f.mac.wbase, f.mac.nbytes);
      SameFlight(f.mac, f.buffer, D.FrameBuffer(f.buffer, c, sent.value));
    } else if f.mac.st == MacTx.Idle {
      NoPasses(f.mac, f.req, f.buffer);
      NoPasses(f.mac, DhcpTurn(f).req, DhcpTurn(f).buffer);
    }
  }

  lemma BusyBuilders(f: Top, pacing: nat, junk: seq<byte>)
    requires Sized(f) && |junk| == TcpFrame.SCRATCH
    ensures Builders(f, true, pacing, junk) == DhcpTurn(f) && DhcpTurn(f).mac == f.mac
  {
    hide Sized, D.TxStep, D.FrameBuffer;
  }

  /** What a builder behind the received frame asks for comes on top. */
  lemma BuildersAdd(f: Top, busy: bool, pacing: nat, junk: seq<byte>)
    requires Sized(f) && |junk| == TcpFrame.SCRATCH
    requires FirstPhase(f.client) && (f.mac.st != MacTx.Idle ==> Inside(MacWire.Latched(f.mac)))
    requires f.mac.st != MacTx.Idle && f.mac.wbase == DHCP_FRAME_BASE ==>
      f.client.st == D.WaitOffer && f.client.timer <= MacWire.Position(f.mac)
    requires !busy ==> f.mac.st == MacTx.Idle
    ensures var u := Builders(f, busy, pacing, junk);
      Future(u) == Future(f) + if f.req.request then [] else Waiting(u.req, u.buffer)
  {
    hide Builders, Sized, FirstPhase, Inside, Future, Flight, Waiting, DhcpTurn, MacTx.Legal;
    var u := Builders(f, busy, pacing, junk);
    SizedMac(f);
    SizedMac(u);
    FutureForm(f);
    FutureForm(u);
    NoWaiting(f.req, f.buffer);
    var fl, w := Flight(f.mac, f.buffer), Waiting(f.req, f.buffer);
    assert (fl + w) + [] == fl + w && fl + [] == fl;
    if f.req.request {
      RequestStands(f, busy, pacing, junk);
    } else if busy {
      DhcpBeside(f);
      BusyBuilders(f, pacing, junk);
    } else {
      NoPasses(f.mac, f.req, f.buffer);
      NoPasses(u.mac, u.req, u.buffer);
    }
  }

  lemma SizedMac(f: Top)
    requires Sized(f)
    ensures |f.buffer| == BUFFER_DEPTH && MacTx.Legal(f.mac, BUFFER_DEPTH) && MacTx.LegalReq(f.req, BUFFER_DEPTH)
  {
  }

  lemma RequestStands(f: Top, busy: bool, pacing: nat, junk: seq<byte>)
    requires Sized(f) && |junk| == TcpFrame.SCRATCH && f.req.request
    ensures Builders(f, busy, pacing, junk).req == f.req && Builders(f, busy, pacing, junk).buffer == f.buffer
  {
    hide Sized;
  }

  lemma SameFlight(s: MacTx.Tx, m1: seq<word>, m2: seq<word>)
    requires |m1| == |m2| == BUFFER_DEPTH && MacTx.Legal(s, BUFFER_DEPTH) && s.st != MacTx.Idle
    requires 4 * s.wbase + s.nbytes <= 4 * BUFFER_DEPTH
    requires ReadBytes(m2, s.wbase, s.nbytes) == ReadBytes(m1, s.wbase, s.nbytes)
    ensures Flight(s, m2) == Flight(s, m1)
  {
    hide MacTx.Legal, MacWire.Stream, MacWire.Left;
    MacWire.StreamsAgreeIff(s, NO_REQUEST, m1, m2);
  }

  /** One call, exactly: what is owed and what is newly asked for is what the call writes and what will be written if
      nothing more happens, if and only if the received frame disturbs nothing. */
  lemma CallKeepsIff(t: Top, i: Input, pacing: nat)
    requires Callable(t, i) && Inv(t)
    ensures var a := AfterMac(t, i);
      Rest(t) + (Replied(t, i) + Built(t, i, pacing)) == Written(t) + Future(Step(t, i, pacing))
      <==> Undisturbed(a.mac, a.req, a.buffer, EffectNow(t, i), WritesNow(t, i))
  {
    hide AfterMac, AfterFrame, EffectNow, WritesNow, Inv, Rest, Written, Replied, Future, Builders, Undisturbed,
         Sized, Waiting, FirstPhase, Orderly, Inside, Stored, Busy;
    AfterMacOwes(t, i);
    FrameDoes(t, i);
    FrameKeepsIff(t, i);
    var a, f := AfterMac(t, i), AfterFrame(t, i);
    OrderlyInside(a.mac, a.req, a.buffer);
    BuildersAdd(f, Busy(t), pacing, i.junk2);
    Cancel(Written(t), Rest(a), Replied(t, i), Built(t, i, pacing), Future(f));
  }

  lemma OrderlyInside(s: MacTx.Tx, r: TxReq, m: seq<word>)
    requires Orderly(s, r, m)
    ensures s.st != MacTx.Idle ==> Inside(MacWire.Latched(s))
  {
  }

  lemma Cancel(w: seq<Beat>, r: seq<Beat>, x: seq<Beat>, b: seq<Beat>, f: seq<Beat>)
    ensures (w + r) + (x + b) == w + (f + b) <==> r + x == f
  {
    var p, q := (w + r) + (x + b), w + (f + b);
    assert p == w + ((r + x) + b);
    if p == q {
      assert (r + x) + b == p[|w|..] == q[|w|..] == f + b;
      assert |r + x| == |f|;
      assert r + x == ((r + x) + b)[..|f|] && f == (f + b)[..|f|];
    }
  }

  // ---------------------------------------------------------------- the gate is inside the condition

  /** Gated calls disturb nothing. */
  lemma GatedUndisturbed(t: Top, i: Input)
    requires Callable(t, i) && Inv(t) && Gated(t, i)
    ensures var a := AfterMac(t, i); Undisturbed(a.mac, a.req, a.buffer, EffectNow(t, i), WritesNow(t, i))
  {
    hide AfterMac, AfterFrame, WritesNow, Inv, Rest, Written, Future, Undisturbed, Sized, Stored, Waiting, EffectOf,
         MacWire.WireOf, Inside, Orderly;
    AfterMacOwes(t, i);
    FrameDoes(t, i);
    FrameOwes(t, i);
    FrameKeepsIff(t, i);
    var a, f := AfterMac(t, i), AfterFrame(t, i);
    SizedMac(f);
    WaitingIs(f.req, f.buffer);
    RestIsFuture(f);
    assert Rest(a) + [] == Rest(a);
  }

  lemma WaitingIs(r: TxReq, m: seq<word>)
    requires |m| == BUFFER_DEPTH && MacTx.LegalReq(r, BUFFER_DEPTH)
    ensures Waiting(r, m) == if r.request then MacWire.WireOf(r, m) else []
  {
  }
}
