/** The echo server of layer_tcp.cpp as a function of its state: three connections, one parked-byte queue, Reno
    bookkeeping. 32-bit quantities wrap as uint32_t does. */
module Tcp {
  import opened Bytes
  import opened Layout
  import opened TcpOptions

  const MAX_CONN: nat := 3
  const ECHO_PORT: u16 := 7
  const MSS: nat := 460
  const SEND_BUF: nat := 576
  const TX_CHUNK: nat := 536
  /** The initial sequence number of every slot. */
  const ISN: word := 0x1234_5678

  /** The slot number shifted into the initial number changes nothing: its bits are already set. */
  lemma SlotsShareIsn(cid: bv32)
    requires cid < 3
    ensures (0x1234_5678 | (cid << 20)) as int == ISN
  {
    assert cid == 0 || cid == 1 || cid == 2;
  }

  type Flags = byte
  const FIN: Flags := 0x01
  const SYN: Flags := 0x02
  const ACK: Flags := 0x10

  predicate HasFin(f: Flags) { f % 2 == 1 }
  predicate HasSyn(f: Flags) { f / 2 % 2 == 1 }
  predicate HasAck(f: Flags) { f / 16 % 2 == 1 }

  function Plus(a: word, n: nat): word { (a + n) % WRAP }

  function Minus(a: word, b: word): word { if a >= b then a - b else a - b + WRAP }

  datatype St = Free | Listen | SynRcvd | Established | LastAck

  /** A connection; the retransmission and round-trip fields, read only by code that never runs, are left out. */
  datatype Conn = Conn(st: St, peerPort: u16, peerIp: word, peerWindow: word, peerMss: u16, peerWscale: byte,
                       sndSeq: word, peerSeq: word, lastAck: word, dupAcks: byte,
                       cwnd: word, ssthresh: word, flight: word)

  const FREE_CONN: Conn := Conn(Free, 0, 0, 0, 0, 0, 0, 0, 0, 0, 0, 0, 0)

  /** A received segment. */
  datatype Segment = Segment(srcIp: word, srcPort: u16, dstPort: u16, seqNo: word, ackNo: word, flags: Flags, wnd: u16,
                             peer: Peer, payload: seq<byte>)

  /** A segment handed to the MAC: the connection as it was, the flags and the payload. */
  datatype Out = Out(cid: nat, conn: Conn, flags: Flags, payload: seq<byte>)

  /** bufs holds the three send buffers one after the other. */
  datatype State = State(conns: seq<Conn>, bufs: seq<byte>, qLen: nat, qOff: nat, qCid: nat)

  predicate Valid(t: State) {
    && |t.conns| == MAX_CONN && |t.bufs| == MAX_CONN * SEND_BUF
    && t.qOff <= t.qLen <= SEND_BUF && t.qCid < MAX_CONN
  }

  predicate ValidSegment(s: Segment) { |s.payload| <= SEND_BUF }

  const INIT: State := State([FREE_CONN, FREE_CONN, FREE_CONN], seq(MAX_CONN * SEND_BUF, _ => 0), 0, 0, 0)

  // ---------------------------------------------------------------- connection table

  predicate Matches(c: Conn, port: u16, ip: word) {
    c.st != Free && c.peerPort == port && c.peerIp == ip
  }

  /** tcp_find from slot i on, `free` being the first free slot so far: the matching live slot, else the first free
      one, else none. */
  function FindFrom(conns: seq<Conn>, port: u16, ip: word, i: nat, free: Option<nat>): Option<nat>
    requires i <= |conns|
    decreases |conns| - i
  {
    if i == |conns| then free
    else if Matches(conns[i], port, ip) then Some(i)
    else FindFrom(conns, port, ip, i + 1, if conns[i].st == Free && free == None then Some(i) else free)
  }

  function Find(conns: seq<Conn>, port: u16, ip: word): Option<nat> {
    FindFrom(conns, port, ip, 0, None)
  }

  // ---------------------------------------------------------------- Reno

  function HalfFlight(c: Conn): word {
    if c.flight / 2 > 2 * MSS then c.flight / 2 else 2 * MSS
  }

  /** The window increment of congestion avoidance. */
  function Growth(w: nat): nat
    requires w > 0
  {
    MSS * MSS / w
  }

  /** tcp_reno_on_ack. */
  function OnAck(c: Conn, ack: word): Conn
    requires c.cwnd > 0
  {
    var acked := Minus(ack, c.lastAck);
    if acked == 0 then
      var d: byte := (c.dupAcks + 1) % 0x100;
      if d == 3 then c.(dupAcks := 0, ssthresh := HalfFlight(c), cwnd := Plus(HalfFlight(c), 3 * MSS))
      else if d > 3 then c.(dupAcks := d, cwnd := Plus(c.cwnd, MSS))
      else c.(dupAcks := d)
    else
      var c' := c.(dupAcks := 0, flight := if c.flight >= acked then c.flight - acked else 0, lastAck := ack);
      if c.cwnd < c.ssthresh then
        var w := Plus(c.cwnd, MSS);
        c'.(cwnd := if w > c.ssthresh then c.ssthresh else w)
      else c'.(cwnd := Plus(c.cwnd, Growth(c.cwnd)))
  }

  // ---------------------------------------------------------------- sending and queueing

  /** Sequence numbers a segment takes. */
  function Span(flags: Flags, n: nat): nat {
    n + (if HasSyn(flags) then 1 else 0) + (if HasFin(flags) then 1 else 0)
  }

  /** What tcp_send does to the connection. */
  function AfterSend(c: Conn, flags: Flags, n: nat): Conn {
    c.(sndSeq := Plus(c.sndSeq, Span(flags, n)), flight := Plus(c.flight, Span(flags, n)))
  }

  /** tcp_queue: bytes beyond the 576-byte buffer are dropped. */
  function Room(t: State, payload: seq<byte>): nat
    requires Valid(t)
  {
    var len := if t.qLen == t.qOff then 0 else t.qLen;
    if SEND_BUF - len > |payload| then |payload| else SEND_BUF - len
  }

  function Queue(t: State, cid: nat, payload: seq<byte>): (r: State)
    requires Valid(t) && cid < MAX_CONN
    ensures Valid(r) && r.conns == t.conns
  {
    if payload == [] then t
    else
      var t' := if t.qLen == t.qOff then t.(qLen := 0, qOff := 0, qCid := cid) else t;
      var n := Room(t, payload);
      var at := cid * SEND_BUF + t'.qLen;
      t'.(bufs := t'.bufs[..at] + payload[..n] + t'.bufs[at + n..], qLen := t'.qLen + n)
  }

  /** The bytes parked for the queue's owner. */
  function Parked(t: State): seq<byte>
    requires Valid(t)
  {
    t.bufs[t.qCid * SEND_BUF + t.qOff..t.qCid * SEND_BUF + t.qLen]
  }

  /** tcp_maintenance with no request pending: at most one chunk leaves the queue. */
  function Maintain(t: State): (r: (State, Option<Out>))
    requires Valid(t)
    ensures Valid(r.0)
  {
    if t.qLen > t.qOff then
      var n := if |Parked(t)| > TX_CHUNK then TX_CHUNK else |Parked(t)|;
      var c := t.conns[t.qCid];
      var t' := t.(conns := t.conns[t.qCid := AfterSend(c, ACK, n)], qOff := t.qOff + n);
      (if t'.qOff >= t'.qLen then t'.(qLen := 0, qOff := 0) else t', Some(Out(t.qCid, c, ACK, Parked(t)[..n])))
    else (t, None)
  }

  // ---------------------------------------------------------------- receiving

  /** A connection freshly taken for a SYN. */
  function Opened(s: Segment): Conn {
    FREE_CONN.(st := Listen, sndSeq := ISN, ssthresh := 65535, peerMss := s.peer.mss, peerWscale := s.peer.wscale,
               cwnd := if 0 < s.peer.mss < MSS then s.peer.mss else MSS)
  }

  /** Window and acknowledgement, before the switch on the state. */
  function Noted(c: Conn, s: Segment): Conn
    requires c.cwnd > 0 && c.peerWscale <= 7
  {
    var c' := c.(peerWindow := s.wnd * Shift(c.peerWscale));
    if HasAck(s.flags) then OnAck(c', s.ackNo) else c'
  }

  function Shift(n: byte): nat
    requires n <= 7
  {
    if n == 0 then 1 else if n == 1 then 2 else if n == 2 then 4 else if n == 3 then 8
    else if n == 4 then 16 else if n == 5 then 32 else if n == 6 then 64 else 128
  }

  /** Connections the arithmetic is defined on: no division by a zero window, scale at most 7. */
  predicate Sound(c: Conn) { c.st != Free ==> c.cwnd > 0 && c.peerWscale <= 7 }

  predicate AllSound(t: State) { forall i :: 0 <= i < |t.conns| ==> Sound(t.conns[i]) }

  /** A SYN that takes a free slot. */
  predicate Opens(c: Conn, s: Segment) { c.st == Free && HasSyn(s.flags) && !HasAck(s.flags) }

  /** tcp_rx_process on a TCP segment: new state and the segment sent at once, if any. */
  function Receive(t: State, s: Segment): (r: (State, Option<Out>))
    requires Valid(t) && AllSound(t) && ValidSegment(s) && s.peer.wscale <= 7
    ensures Valid(r.0)
  {
    if s.dstPort != ECHO_PORT then (t, None)
    else
      match Find(t.conns, s.srcPort, s.srcIp)
      case None => (t, None)
      case Some(cid) =>
        if cid >= MAX_CONN then (t, None)
        else
          var c0 := t.conns[cid];
          if c0.st == Free && !Opens(c0, s) then (t, None)
          else
            var c := Noted(if c0.st == Free then Opened(s) else c0, s);
            Switch(t.(conns := t.conns[cid := c]), cid, s)
  }

  /** The switch on the connection state. */
  function Switch(t: State, cid: nat, s: Segment): (r: (State, Option<Out>))
    requires Valid(t) && cid < MAX_CONN && ValidSegment(s)
    ensures Valid(r.0)
  {
    var c := t.conns[cid];
    match c.st
    case Listen =>
      if HasSyn(s.flags) then
        var c' := c.(peerSeq := Plus(s.seqNo, 1), peerIp := s.srcIp, peerPort := s.srcPort, st := SynRcvd);
        (t.(conns := t.conns[cid := AfterSend(c', SYN + ACK, 0)]), Some(Out(cid, c', SYN + ACK, [])))
      else (t, None)
    case SynRcvd =>
      if HasAck(s.flags) && s.ackNo == c.sndSeq then (t.(conns := t.conns[cid := c.(st := Established)]), None)
      else (t, None)
    case Established =>
      var c' := c.(peerSeq := Plus(s.seqNo, |s.payload| + if HasFin(s.flags) then 1 else 0));
      var t' := Queue(t.(conns := t.conns[cid := c']), cid, s.payload);
      if HasFin(s.flags) then
        (t'.(conns := t'.conns[cid := AfterSend(c', FIN + ACK, 0).(st := LastAck)]), Some(Out(cid, c', FIN + ACK, [])))
      else (t', None)
    case LastAck =>
      if HasAck(s.flags) then (t.(conns := t.conns[cid := c.(st := Free)]), None) else (t, None)
    case Free => (t, None)
  }
}
