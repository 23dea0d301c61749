/** "Echo the byte stream": what the parked-byte queue, the sequence numbers and the flight size amount to over whole
    runs of received segments and idle passes. */
module TcpEcho {
  import opened Bytes
  import opened Layout
  import opened Tcp
  import opened TcpTable

  // ---------------------------------------------------------------- flight size

  /** Bytes in flight are exactly those between the last acknowledgement and the next sequence number. */
  predicate FlightExact(c: Conn) { c.flight == Minus(c.sndSeq, c.lastAck) }

  lemma SendKeepsFlight(c: Conn, flags: Flags, n: nat)
    requires FlightExact(c)
    ensures FlightExact(AfterSend(c, flags, n))
  {
    var k := Span(flags, n);
  }

  /** One acknowledgement keeps the flight size exact if and only if it acknowledges nothing beyond what was sent. */
  lemma AckKeepsFlightIff(c: Conn, ack: word)
    requires c.cwnd > 0 && FlightExact(c)
    ensures FlightExact(OnAck(c, ack)) <==> Minus(ack, c.lastAck) <= c.flight
  {
    hide Growth;
  }

  /** Flight accounting by connection state; before the handshake ends only the SYN is out. */
  predicate Counted(c: Conn) {
    match c.st
    case SynRcvd => c.sndSeq == Plus(ISN, 1) && (c.flight == 0 || (c.flight == 1 && c.lastAck == 0))
    case Established => FlightExact(c)
    case LastAck => FlightExact(c)
    case Listen => true
    case Free => true
  }

  /** An event in which the peer acknowledges only what was sent. */
  predicate InWindow(t: State, e: Event)
    requires Valid(t)
  {
    e.Rx? && Handled(t, e.seg).Some? && HasAck(e.seg.flags) ==>
      var c := t.conns[Handled(t, e.seg).value];
      c.st == Established || c.st == LastAck ==> Minus(e.seg.ackNo, c.lastAck) <= c.flight
  }

  // ---------------------------------------------------------------- who may queue

  function ParkedFor(t: State, cid: nat): seq<byte>
    requires Valid(t)
  {
    if t.qCid == cid then Parked(t) else []
  }

  /** The bytes one event adds to a connection's echo stream: what tcp_queue finds room for. */
  function AcceptedBy(t: State, e: Event, cid: nat): seq<byte>
    requires Valid(t) && ValidEvent(e)
  {
    if e.Rx? && Handled(t, e.seg) == Some(cid) && t.conns[cid].st == Established
    then e.seg.payload[..Room(t, e.seg.payload)] else []
  }

  function SentBy(out: Option<Out>, cid: nat): seq<byte> {
    if out.Some? && out.value.cid == cid then out.value.payload else []
  }

  /** The queue is empty or already belongs to the connection that adds to it. */
  predicate Owned(t: State, e: Event)
    requires Valid(t) && ValidEvent(e)
  {
    forall cid :: 0 <= cid < MAX_CONN && AcceptedBy(t, e, cid) != [] ==> t.qLen == t.qOff || t.qCid == cid
  }

  /** No byte of any connection is lost, invented or reordered by one event. */
  predicate Conserves(t: State, e: Event)
    requires Valid(t) && AllSound(t) && ValidEvent(e)
  {
    var (u, out) := Step(t, e);
    forall cid :: 0 <= cid < MAX_CONN ==>
      ParkedFor(t, cid) + AcceptedBy(t, e, cid) == SentBy(out, cid) + ParkedFor(u, cid)
  }

  /** Only the queue fields matter to what is parked. */
  lemma ParkedSame(t: State, u: State)
    requires Valid(t) && Valid(u) && t.bufs == u.bufs && t.qLen == u.qLen && t.qOff == u.qOff && t.qCid == u.qCid
    ensures forall cid :: ParkedFor(t, cid) == ParkedFor(u, cid)
  {
  }

  lemma QueueParks(t: State, cid: nat, p: seq<byte>)
    requires Valid(t) && cid < MAX_CONN && |p| <= SEND_BUF
    requires t.qLen == t.qOff || t.qCid == cid
    ensures ParkedFor(Queue(t, cid, p), cid) == ParkedFor(t, cid) + p[..Room(t, p)]
    ensures forall k :: k != cid ==> ParkedFor(Queue(t, cid, p), k) == ParkedFor(t, k)
  {
  }

  /** Added to another connection's queue, bytes only lengthen that queue with what lay in its buffer. */
  lemma QueueMisparks(t: State, cid: nat, p: seq<byte>)
    requires Valid(t) && cid < MAX_CONN && |p| <= SEND_BUF
    requires t.qLen != t.qOff && t.qCid != cid
    ensures |ParkedFor(Queue(t, cid, p), t.qCid)| == |ParkedFor(t, t.qCid)| + Room(t, p)
    ensures Room(t, p) == 0 ==> forall k :: ParkedFor(Queue(t, cid, p), k) == ParkedFor(t, k)
  {
    var at := cid * SEND_BUF + t.qLen;
    if Room(t, p) == 0 {
      assert t.bufs[..at] + p[..0] + t.bufs[at..] == t.bufs;
      assert Queue(t, cid, p) == t;
    }
  }

  lemma MaintainConserves(t: State)
    requires Valid(t) && AllSound(t)
    ensures Conserves(t, Idle)
  {
    hide AfterSend, AllSound;
    var (u, out) := Maintain(t);
    if t.qLen > t.qOff {
      var n := |out.value.payload|;
      assert Parked(t) == Parked(t)[..n] + Parked(t)[n..];
      assert out.value.payload == Parked(t)[..n] && Parked(u) == Parked(t)[n..];
      assert u.qCid == t.qCid && out.value.cid == t.qCid;
    }
  }

  /** The state the switch starts from parks what the old one did. */
  lemma SwitchParks(t: State, i: nat, s: Segment)
    requires Valid(t) && i < MAX_CONN && ValidSegment(s)
    ensures var (u, out) := Switch(t, i, s);
      && (forall k :: SentBy(out, k) == [])
      && (forall k ::
            ParkedFor(u, k) == ParkedFor(if t.conns[i].st == Established then Queue(t, i, s.payload) else t, k))
  {
    hide Queue;
    var (u, out) := Switch(t, i, s);
    if t.conns[i].st == Established {
      var q := Queue(t, i, s.payload);
      var c := t.conns[i].(peerSeq := Plus(s.seqNo, |s.payload| + if HasFin(s.flags) then 1 else 0));
      QueueIgnoresConns(t, i, s.payload, i, c);
      ParkedSame(u, q);
    } else {
      ParkedSame(u, t);
    }
  }

  lemma QueueIgnoresConns(t: State, cid: nat, p: seq<byte>, i: nat, c: Conn)
    requires Valid(t) && cid < MAX_CONN && |p| <= SEND_BUF && i < MAX_CONN
    ensures Queue(t.(conns := t.conns[i := c]), cid, p) == Queue(t, cid, p).(conns := t.conns[i := c])
  {
  }

  /** What one received segment does to the parked bytes. */
  lemma ReceiveParks(t: State, s: Segment, tops: seq<nat>)
    requires Inv(t, tops) && ValidEvent(Rx(s))
    ensures AllSound(t)
    ensures var (u, out) := Receive(t, s);
      var h := Handled(t, s);
      && (forall k :: SentBy(out, k) == [])
      && (forall k :: ParkedFor(u, k) ==
            ParkedFor(if h.Some? && t.conns[h.value].st == Established then Queue(t, h.value, s.payload) else t, k))
  {
    ReceiveForm(t, s);
    var h := Handled(t, s);
    if h.Some? {
      var i := h.value;
      var b := Before(t, s, i);
      var v := t.(conns := t.conns[i := b]);
      BeforeGood(t.conns[i], s, tops[i]);
      SwitchParks(v, i, s);
      hide Noted, Opened, Switch, Queue;
      QueueIgnoresConns(t, i, s.payload, i, b);
      ParkedSame(v, t);
      if t.conns[i].st == Established {
        ParkedSame(Queue(v, i, s.payload), Queue(t, i, s.payload));
      }
    }
  }

  /** An event conserves every connection's byte stream if and only if it adds to a queue that is empty or its own. */
  lemma StepConservesIff(t: State, e: Event, tops: seq<nat>)
    requires Inv(t, tops) && ValidEvent(e)
    ensures AllSound(t)
    ensures Conserves(t, e) <==> Owned(t, e)
  {
    match e
    case Idle => MaintainConserves(t);
    case Rx(s) =>
      ReceiveParks(t, s, tops);
      var h := Handled(t, s);
      if h.Some? && t.conns[h.value].st == Established {
        QueueConservesIff(t, s, h.value);
      }
  }

  lemma QueueConservesIff(t: State, s: Segment, i: nat)
    requires Valid(t) && ValidEvent(Rx(s)) && AllSound(t)
    requires Handled(t, s) == Some(i) && i < MAX_CONN && t.conns[i].st == Established
    requires var (u, out) := Receive(t, s);
      (forall k :: SentBy(out, k) == []) && (forall k :: ParkedFor(u, k) == ParkedFor(Queue(t, i, s.payload), k))
    ensures Conserves(t, Rx(s)) <==> Owned(t, Rx(s))
  {
    hide Receive, Handled, ParkedFor, SentBy, Queue;
    var (u, out) := Receive(t, s);
    var p := s.payload;
    assert AcceptedBy(t, Rx(s), i) == p[..Room(t, p)];
    forall k | 0 <= k < MAX_CONN && k != i ensures AcceptedBy(t, Rx(s), k) == [] {
    }
    if t.qLen == t.qOff || t.qCid == i {
      QueueParks(t, i, p);
      assert forall k :: 0 <= k < MAX_CONN ==> ParkedFor(t, k) + AcceptedBy(t, Rx(s), k) == [] + ParkedFor(u, k);
    } else {
      QueueMisparks(t, i, p);
      if Room(t, p) == 0 {
        assert AcceptedBy(t, Rx(s), i) == [];
      } else {
        assert |ParkedFor(u, t.qCid)| > |ParkedFor(t, t.qCid)|;
        assert ParkedFor(t, t.qCid) + AcceptedBy(t, Rx(s), t.qCid) != SentBy(out, t.qCid) + ParkedFor(u, t.qCid);
        assert AcceptedBy(t, Rx(s), i) != [];
      }
    }
  }

  // ---------------------------------------------------------------- the stream over runs

  predicate AllOwned(t: State, tops: seq<nat>, es: seq<Event>)
    requires Inv(t, tops) && ValidEvents(es)
    decreases |es|
  {
    es == [] || (Owned(t, es[0]) && (
      StepKeepsInv(t, es[0], tops);
      var u := Step(t, es[0]).0;
      AllOwned(u, Peaks(t, u, tops), es[1..])))
  }

  /** Everything accepted for a connection during a run. */
  function Accepted(t: State, tops: seq<nat>, es: seq<Event>, cid: nat): seq<byte>
    requires Inv(t, tops) && ValidEvents(es)
    decreases |es|
  {
    if es == [] then []
    else
      StepKeepsInv(t, es[0], tops);
      var u := Step(t, es[0]).0;
      AcceptedBy(t, es[0], cid) + Accepted(u, Peaks(t, u, tops), es[1..], cid)
  }

  /** The payloads sent on a connection, in order. */
  function Sent(outs: seq<Out>, cid: nat): seq<byte> {
    if outs == [] then [] else (if outs[0].cid == cid then outs[0].payload else []) + Sent(outs[1..], cid)
  }

  /** Over every run that adds to a queue only when it is empty or the adder's own, for every connection: what was
      parked and what was accepted is what was sent and what is still parked, byte for byte and in order. */
  lemma {:induction false} EchoStream(t: State, tops: seq<nat>, es: seq<Event>, cid: nat)
    requires Inv(t, tops) && ValidEvents(es) && AllOwned(t, tops, es) && cid < MAX_CONN
    ensures var (v, _, outs) := Run(t, tops, es);
      ParkedFor(t, cid) + Accepted(t, tops, es, cid) == Sent(outs, cid) + ParkedFor(v, cid)
    decreases |es|
  {
    hide Step, Owned, Peaks, ParkedFor, AcceptedBy, RenoSane;
    if es != [] {
      StepKeepsInv(t, es[0], tops);
      var (u, out) := Step(t, es[0]);
      var tops' := Peaks(t, u, tops);
      OneStep(t, es[0], tops, cid);
      EchoStream(u, tops', es[1..], cid);
      var (v, _, rest) := Run(u, tops', es[1..]);
      SentCons(out, rest, cid);
      Chain(ParkedFor(t, cid), AcceptedBy(t, es[0], cid), SentBy(out, cid), ParkedFor(u, cid),
            Accepted(u, tops', es[1..], cid), Sent(rest, cid), ParkedFor(v, cid));
    }
  }

  lemma OneStep(t: State, e: Event, tops: seq<nat>, cid: nat)
    requires Inv(t, tops) && ValidEvent(e) && Owned(t, e) && cid < MAX_CONN
    ensures AllSound(t)
    ensures var (u, out) := Step(t, e);
      ParkedFor(t, cid) + AcceptedBy(t, e, cid) == SentBy(out, cid) + ParkedFor(u, cid)
  {
    hide Step, Owned, ParkedFor, AcceptedBy, SentBy;
    StepConservesIff(t, e, tops);
  }

  lemma SentCons(out: Option<Out>, rest: seq<Out>, cid: nat)
    ensures Sent((if out.Some? then [out.value] else []) + rest, cid) == SentBy(out, cid) + Sent(rest, cid)
  {
    if out.Some? {
      assert ([out.value] + rest)[1..] == rest;
    } else {
      assert [] + rest == rest;
    }
  }

  lemma Chain(p: seq<byte>, a: seq<byte>, s: seq<byte>, q: seq<byte>, more: seq<byte>, ss: seq<byte>, r: seq<byte>)
    requires p + a == s + q && q + more == ss + r
    ensures p + (a + more) == (s + ss) + r
  {
    assert p + (a + more) == (p + a) + more == s + (q + more) == s + (ss + r);
  }

  // ---------------------------------------------------------------- sequence numbers

  /** The connection stays established at every point of the run. */
  predicate StaysEstablished(t: State, tops: seq<nat>, es: seq<Event>, cid: nat)
    requires Inv(t, tops) && ValidEvents(es) && cid < MAX_CONN
    decreases |es|
  {
    t.conns[cid].st == Established && (es == [] || (
      StepKeepsInv(t, es[0], tops);
      var u := Step(t, es[0]).0;
      StaysEstablished(u, Peaks(t, u, tops), es[1..], cid)))
  }

  /** Each data segment of a connection starts where the one before it ended. */
  predicate Contiguous(outs: seq<Out>, cid: nat, base: word) {
    outs == [] || (if outs[0].cid == cid
      then outs[0].conn.sndSeq == base && Contiguous(outs[1..], cid, Plus(base, |outs[0].payload|))
      else Contiguous(outs[1..], cid, base))
  }

  lemma StepSequences(t: State, e: Event, tops: seq<nat>, cid: nat)
    requires Inv(t, tops) && ValidEvent(e) && cid < MAX_CONN && t.conns[cid].st == Established
    ensures AllSound(t)
    ensures var (u, out) := Step(t, e);
      u.conns[cid].st == Established ==>
        && u.conns[cid].sndSeq == Plus(t.conns[cid].sndSeq, |SentBy(out, cid)|)
        && (out.Some? && out.value.cid == cid ==> out.value.conn.sndSeq == t.conns[cid].sndSeq)
  {
    match e
    case Idle =>
    case Rx(s) =>
      ReceiveForm(t, s);
      var h := Handled(t, s);
      if h.Some? {
        ReceiveSequences(t, s, h.value, tops, cid);
      }
  }

  lemma ReceiveSequences(t: State, s: Segment, i: nat, tops: seq<nat>, cid: nat)
    requires Inv(t, tops) && AllSound(t) && ValidEvent(Rx(s)) && cid < MAX_CONN && t.conns[cid].st == Established
    requires Handled(t, s) == Some(i) && i < MAX_CONN
    ensures var (u, out) := Receive(t, s);
      u.conns[cid].st == Established ==>
        && u.conns[cid].sndSeq == Plus(t.conns[cid].sndSeq, |SentBy(out, cid)|)
        && (out.Some? && out.value.cid == cid ==> out.value.conn.sndSeq == t.conns[cid].sndSeq)
  {
    hide Queue, Noted, Opened, Handled;
    var b := Before(t, s, i);
    if t.conns[i].st != Free {
      NotedKeeps(t.conns[i], s);
    }
    ReceiveForm(t, s);
  }

  /** While a connection stays established its data segments have contiguous sequence numbers, from the one it had at
      the start, and its next sequence number counts what was sent. */
  lemma {:induction false} SegmentsContiguous(t: State, tops: seq<nat>, es: seq<Event>, cid: nat)
    requires Inv(t, tops) && ValidEvents(es) && cid < MAX_CONN && StaysEstablished(t, tops, es, cid)
    ensures var (v, _, outs) := Run(t, tops, es);
      && Contiguous(outs, cid, t.conns[cid].sndSeq)
      && v.conns[cid].sndSeq == Plus(t.conns[cid].sndSeq, |Sent(outs, cid)|)
    decreases |es|
  {
    hide Step, Peaks;
    if es != [] {
      StepKeepsInv(t, es[0], tops);
      StepSequences(t, es[0], tops, cid);
      var (u, out) := Step(t, es[0]);
      var tops' := Peaks(t, u, tops);
      SegmentsContiguous(u, tops', es[1..], cid);
      var (v, _, rest) := Run(u, tops', es[1..]);
      SentCons(out, rest, cid);
      var n, m := |SentBy(out, cid)|, |Sent(rest, cid)|;
      PlusPlus(t.conns[cid].sndSeq, n, m);
      if out.Some? {
        assert ([out.value] + rest)[1..] == rest;
      } else {
        assert [] + rest == rest;
      }
    }
  }

  lemma PlusPlus(a: word, n: nat, m: nat)
    ensures Plus(Plus(a, n), m) == Plus(a, n + m)
    ensures Plus(a, 0) == a
  {
  }

  // ---------------------------------------------------------------- the echo

  /** Each data segment of the connection carries the stream's bytes at the offset its sequence number says. */
  predicate Carries(outs: seq<Out>, cid: nat, base: word, stream: seq<byte>, k: nat) {
    outs == [] || (if outs[0].cid == cid
      then var n := |outs[0].payload|;
        && outs[0].conn.sndSeq == Plus(base, k) && k + n <= |stream| && stream[k..k + n] == outs[0].payload
        && Carries(outs[1..], cid, base, stream, k + n)
      else Carries(outs[1..], cid, base, stream, k))
  }

  lemma {:induction false} ContiguousCarries(outs: seq<Out>, cid: nat, base: word, stream: seq<byte>, k: nat)
    requires k <= |stream| && Contiguous(outs, cid, Plus(base, k)) && Sent(outs, cid) <= stream[k..]
    ensures Carries(outs, cid, base, stream, k)
    decreases |outs|
  {
    if outs != [] {
      if outs[0].cid == cid {
        var n := |outs[0].payload|;
        PlusPlus(base, k, n);
        assert stream[k..][..n] == outs[0].payload;
        assert stream[k..][n..] == stream[k + n..];
        ContiguousCarries(outs[1..], cid, base, stream, k + n);
      } else {
        ContiguousCarries(outs[1..], cid, base, stream, k);
      }
    }
  }

  /** The echo: for a connection that stays established and starts with nothing parked, each data segment carries
      exactly the accepted bytes its sequence number says, and together they are all accepted bytes but those still
      parked. */
  lemma EchoRefinement(t: State, tops: seq<nat>, es: seq<Event>, cid: nat)
    requires Inv(t, tops) && ValidEvents(es) && AllOwned(t, tops, es)
    requires cid < MAX_CONN && StaysEstablished(t, tops, es, cid) && ParkedFor(t, cid) == []
    ensures var (v, _, outs) := Run(t, tops, es);
      var stream := Accepted(t, tops, es, cid);
      && Carries(outs, cid, t.conns[cid].sndSeq, stream, 0)
      && stream == Sent(outs, cid) + ParkedFor(v, cid)
  {
    hide StaysEstablished, AllOwned, ParkedFor;
    EchoStream(t, tops, es, cid);
    SegmentsContiguous(t, tops, es, cid);
    var (v, _, outs) := Run(t, tops, es);
    var stream := Accepted(t, tops, es, cid);
    assert [] + stream == stream && stream[0..] == stream;
    PlusPlus(t.conns[cid].sndSeq, 0, 0);
    ContiguousCarries(outs, cid, t.conns[cid].sndSeq, stream, 0);
  }

  /** A payload is accepted whole if and only if it fits the buffer behind what was queued since the last drain. */
  lemma AcceptedWholeIffFits(t: State, s: Segment, cid: nat)
    requires Valid(t) && ValidEvent(Rx(s)) && Handled(t, s) == Some(cid) && t.conns[cid].st == Established
    ensures AcceptedBy(t, Rx(s), cid) == s.payload
       <==> |s.payload| <= SEND_BUF - if t.qLen == t.qOff then 0 else t.qLen
  {
    assert s.payload[..|s.payload|] == s.payload;
  }

  /** But the next acknowledgement number counts the payload whole, accepted or not. */
  lemma AcknowledgedWhole(t: State, s: Segment, tops: seq<nat>, cid: nat)
    requires Inv(t, tops) && ValidEvent(Rx(s)) && Handled(t, s) == Some(cid) && t.conns[cid].st == Established
    ensures AllSound(t)
    ensures Receive(t, s).0.conns[cid].peerSeq == Plus(s.seqNo, |s.payload| + if HasFin(s.flags) then 1 else 0)
  {
    assert cid < MAX_CONN;
    hide Queue, Noted, Handled;
    ReceiveForm(t, s);
    NotedKeeps(t.conns[cid], s);
  }

  function Idles(n: nat): (es: seq<Event>)
    ensures |es| == n && ValidEvents(es)
  {
    seq(n, _ => Idle)
  }

  function Chunks(n: nat): nat { (n + TX_CHUNK - 1) / TX_CHUNK }

  /** The queue drains in ceil(length / 536) idle passes, one segment each, and all of it is sent. */
  lemma {:induction false} DrainsInChunks(t: State, tops: seq<nat>)
    requires Inv(t, tops)
    ensures var (v, _, outs) := Run(t, tops, Idles(Chunks(|Parked(t)|)));
      && |outs| == Chunks(|Parked(t)|) && Sent(outs, t.qCid) == Parked(t) && v.qLen == v.qOff
    decreases |Parked(t)|
  {
    var n := Chunks(|Parked(t)|);
    if t.qLen > t.qOff {
      var (u, out) := Maintain(t);
      StepKeepsInv(t, Idle, tops);
      var tops' := Peaks(t, u, tops);
      var k := |out.value.payload|;
      assert Parked(t) == out.value.payload + Parked(t)[k..];
      assert Idles(n)[0] == Idle && Idles(n)[1..] == Idles(n - 1);
      if |Parked(t)| > TX_CHUNK {
        assert Parked(u) == Parked(t)[k..] && u.qCid == t.qCid;
        assert Chunks(|Parked(u)|) == n - 1;
        DrainsInChunks(u, tops');
      } else {
        assert n == 1 && u.qLen == u.qOff && Parked(t)[k..] == [];
        assert Run(u, tops', Idles(0)) == (u, tops', []);
        DrainsInChunks(u, tops');
      }
      var rest := Run(u, tops', Idles(n - 1)).2;
      SentCons(out, rest, t.qCid);
    }
  }

  // ---------------------------------------------------------------- flight size over runs

  /** Parked bytes belong to an established connection. */
  predicate QueueLive(t: State)
    requires Valid(t)
  {
    t.qLen > t.qOff ==> t.conns[t.qCid].st == Established
  }

  /** A FIN comes alone, after everything of its connection has been echoed. */
  predicate FinDrained(t: State, e: Event)
    requires Valid(t)
  {
    e.Rx? && Handled(t, e.seg).Some? && HasFin(e.seg.flags) && t.conns[Handled(t, e.seg).value].st == Established ==>
      e.seg.payload == [] && ParkedFor(t, Handled(t, e.seg).value) == []
  }

  predicate AllCounted(t: State)
    requires Valid(t)
  {
    QueueLive(t) && forall i :: 0 <= i < MAX_CONN ==> Counted(t.conns[i])
  }

  lemma NotedCounted(c: Conn, s: Segment)
    requires Sound(c) && Counted(c) && c.st != Free && s.peer.wscale <= 7
    requires HasAck(s.flags) && (c.st == Established || c.st == LastAck) ==> Minus(s.ackNo, c.lastAck) <= c.flight
    ensures Counted(Noted(c, s))
    ensures c.st == SynRcvd && HasAck(s.flags) && s.ackNo == c.sndSeq ==>
      FlightExact(Noted(c, s)) && Noted(c, s).flight == 0 && Noted(c, s).lastAck == c.sndSeq
  {
    hide Growth;
    var d := c.(peerWindow := s.wnd * Shift(c.peerWscale));
    if HasAck(s.flags) && (c.st == Established || c.st == LastAck) {
      AckKeepsFlightIff(d, s.ackNo);
    }
  }

  lemma SwitchCounted(t: State, i: nat, s: Segment)
    requires Valid(t) && i < MAX_CONN && ValidSegment(s)
    requires t.conns[i].st == Listen || Counted(t.conns[i])
    requires t.conns[i].st == Listen ==> t.conns[i].sndSeq == ISN && t.conns[i].flight == 0 && t.conns[i].lastAck == 0
    requires t.conns[i].st == SynRcvd && HasAck(s.flags) && s.ackNo == t.conns[i].sndSeq ==> FlightExact(t.conns[i])
    ensures Switch(t, i, s).0.conns[i].st != Listen ==> Counted(Switch(t, i, s).0.conns[i])
  {
    hide Queue, Minus;
    var c := t.conns[i];
    if c.st == Established {
      var c' := c.(peerSeq := Plus(s.seqNo, |s.payload| + if HasFin(s.flags) then 1 else 0));
      SendKeepsFlight(c', FIN + ACK, 0);
    }
  }

  lemma SwitchLive(t: State, i: nat, s: Segment)
    requires Valid(t) && i < MAX_CONN && ValidSegment(s) && QueueLive(t)
    requires t.conns[i].st == Established && HasFin(s.flags) ==> s.payload == [] && ParkedFor(t, i) == []
    ensures QueueLive(Switch(t, i, s).0)
  {
  }

  /** Flight accounting is kept by every event in which the peer acknowledges only what was sent and closes only a
      drained connection. */
  lemma StepCounted(t: State, e: Event, tops: seq<nat>)
    requires Inv(t, tops) && ValidEvent(e) && AllCounted(t) && InWindow(t, e) && FinDrained(t, e)
    ensures AllSound(t) && AllCounted(Step(t, e).0)
  {
    match e
    case Idle =>
      if t.qLen > t.qOff {
        SendKeepsFlight(t.conns[t.qCid], ACK, |Maintain(t).1.value.payload|);
      }
    case Rx(s) =>
      ReceiveForm(t, s);
      var h := Handled(t, s);
      if h.Some? {
        ReceiveCounted(t, s, h.value, tops);
      }
  }

  lemma ReceiveCounted(t: State, s: Segment, i: nat, tops: seq<nat>)
    requires Inv(t, tops) && AllSound(t) && ValidEvent(Rx(s)) && AllCounted(t) && Handled(t, s) == Some(i)
        && i < MAX_CONN
    requires t.conns[i].st != Free || Opens(t.conns[i], s)
    requires InWindow(t, Rx(s)) && FinDrained(t, Rx(s))
    ensures AllCounted(Receive(t, s).0)
  {
    hide Queue, Handled, Switch, Noted, Minus, RenoSane;
    ReceiveForm(t, s);
    var b := Before(t, s, i);
    var v := t.(conns := t.conns[i := b]);
    BeforeGood(t.conns[i], s, tops[i]);
    if t.conns[i].st == Free {
      OpenedCounts(s);
    } else {
      NotedCounted(t.conns[i], s);
      NotedKeeps(t.conns[i], s);
    }
    ParkedSame(v, t);
    SwitchMoves(v, i, s);
    SwitchGood(v, i, s, Peak(t.conns[i], b, tops[i]));
    SwitchCounted(v, i, s);
    SwitchLive(v, i, s);
  }

  lemma OpenedCounts(s: Segment)
    requires !HasAck(s.flags) && s.peer.wscale <= 7
    ensures var b := Noted(Opened(s), s); b.sndSeq == ISN && b.flight == 0 && b.lastAck == 0
  {
  }

  /** Every event of the run acknowledges only what was sent and closes only drained connections. */
  predicate Orderly(t: State, tops: seq<nat>, es: seq<Event>)
    requires Inv(t, tops) && ValidEvents(es)
    decreases |es|
  {
    es == [] || (InWindow(t, es[0]) && FinDrained(t, es[0]) && (
      StepKeepsInv(t, es[0], tops);
      var u := Step(t, es[0]).0;
      Orderly(u, Peaks(t, u, tops), es[1..])))
  }

  lemma {:induction false} RunCounted(t: State, tops: seq<nat>, es: seq<Event>)
    requires Inv(t, tops) && ValidEvents(es) && AllCounted(t) && Orderly(t, tops, es)
    ensures AllCounted(Run(t, tops, es).0)
    decreases |es|
  {
    hide Step, Peaks, InWindow, FinDrained;
    if es != [] {
      StepKeepsInv(t, es[0], tops);
      StepCounted(t, es[0], tops);
      var u := Step(t, es[0]).0;
      RunCounted(u, Peaks(t, u, tops), es[1..]);
    }
  }

  /** From power-up, with a peer that acknowledges only what was sent and closes only drained connections: after the
      handshake the flight size of every connection is the distance from its last acknowledgement to its next
      sequence number, though the last acknowledgement starts at 0. */
  lemma FlightConserved(es: seq<Event>)
    requires ValidEvents(es) && Inv(INIT, TOPS0) && Orderly(INIT, TOPS0, es)
    ensures var t := Run(INIT, TOPS0, es).0;
      forall i :: 0 <= i < MAX_CONN && (t.conns[i].st == Established || t.conns[i].st == LastAck)
        ==> t.conns[i].flight == Minus(t.conns[i].sndSeq, t.conns[i].lastAck)
  {
    RunCounted(INIT, TOPS0, es);
  }

  /** The handshake ends with sequence number ISN + 1, everything acknowledged: the base of the echoed stream. */
  lemma HandshakeBase(t: State, s: Segment, tops: seq<nat>, i: nat)
    requires Inv(t, tops) && ValidEvent(Rx(s)) && AllCounted(t) && Handled(t, s) == Some(i) && t.conns[i].st == SynRcvd
    ensures AllSound(t)
    ensures var d := Receive(t, s).0.conns[i];
      d.st == Established ==> d.sndSeq == Plus(ISN, 1) && d.lastAck == d.sndSeq && d.flight == 0
  {
    assert i < MAX_CONN;
    hide Queue, Handled, Noted;
    ReceiveForm(t, s);
    NotedCounted(t.conns[i], s);
    NotedKeeps(t.conns[i], s);
  }

  /** A FIN sent while bytes are parked takes a sequence number short of the end of the stream: it closes at the
      right place if and only if nothing is parked before the call and the segment itself adds nothing. */
  lemma FinAtEndIffDrained(t: State, s: Segment, tops: seq<nat>, cid: nat, base: word, sent: nat)
    requires Inv(t, tops) && ValidEvent(Rx(s)) && Handled(t, s) == Some(cid)
    requires t.conns[cid].st == Established && HasFin(s.flags) && Owned(t, Rx(s))
        && t.conns[cid].sndSeq == Plus(base, sent)
    ensures AllSound(t)
    ensures var (u, out) := Receive(t, s);
      var accepted := sent + |ParkedFor(t, cid)| + |AcceptedBy(t, Rx(s), cid)|;
      && out.Some? && out.value.cid == cid && HasFin(out.value.flags)
      && var atEnd := out.value.conn.sndSeq == Plus(base, accepted);
         atEnd <==> ParkedFor(t, cid) == [] && AcceptedBy(t, Rx(s), cid) == []
  {
    StepConservesIff(t, Rx(s), tops);
    FinSent(t, s, tops, cid);
    hide Receive, ParkedFor, AcceptedBy, Handled, Owned;
    var (u, out) := Receive(t, s);
    assert ParkedFor(t, cid) + AcceptedBy(t, Rx(s), cid) == SentBy(out, cid) + ParkedFor(u, cid);
    PlusPlus(base, sent, |ParkedFor(u, cid)|);
    PlusFixed(Plus(base, sent), |ParkedFor(u, cid)|);
  }

  lemma PlusFixed(a: word, n: nat)
    requires n <= SEND_BUF
    ensures Plus(a, n) == a <==> n == 0
  {
  }

  lemma FinSent(t: State, s: Segment, tops: seq<nat>, cid: nat)
    requires Inv(t, tops) && ValidEvent(Rx(s)) && Handled(t, s) == Some(cid)
    requires t.conns[cid].st == Established && HasFin(s.flags)
    ensures AllSound(t)
    ensures var out := Receive(t, s).1;
      out.Some? && out.value.cid == cid && HasFin(out.value.flags) && out.value.conn.sndSeq == t.conns[cid].sndSeq
      && out.value.payload == []
  {
    assert cid < MAX_CONN;
    hide Queue, Handled, Noted;
    ReceiveForm(t, s);
    NotedKeeps(t.conns[cid], s);
  }
}
