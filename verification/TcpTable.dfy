/** The connection table over runs: who matches, what states follow each other, what stays sane. */
module TcpTable {
  import opened Bytes
  import opened Layout
  import opened TcpOptions
  import opened Tcp

  /** A received segment, or an idle pass of the maintenance. */
  datatype Event = Rx(seg: Segment) | Idle

  predicate ValidEvent(e: Event) {
    e.Rx? ==> ValidSegment(e.seg) && e.seg.peer.wscale <= 7
  }

  predicate ValidEvents(es: seq<Event>) { forall i :: 0 <= i < |es| ==> ValidEvent(es[i]) }

  function Step(t: State, e: Event): (r: (State, Option<Out>))
    requires Valid(t) && AllSound(t) && ValidEvent(e)
    ensures Valid(r.0)
  {
    match e
    case Rx(s) => Receive(t, s)
    case Idle => Maintain(t)
  }

  // ---------------------------------------------------------------- tcp_find

  predicate NoMatch(conns: seq<Conn>, port: u16, ip: word, from: nat, to: nat)
    requires from <= to <= |conns|
  {
    forall i :: from <= i < to ==> !Matches(conns[i], port, ip)
  }

  lemma {:induction false} FindFromSpec(conns: seq<Conn>, port: u16, ip: word, i: nat, free: Option<nat>)
    requires i <= |conns| && NoMatch(conns, port, ip, 0, i)
    requires free.Some? ==> free.value < i && conns[free.value].st == Free
    requires free.None? ==> forall j :: 0 <= j < i ==> conns[j].st != Free
    ensures FindIsRight(conns, port, ip, FindFrom(conns, port, ip, i, free))
    decreases |conns| - i
  {
    if i < |conns| && !Matches(conns[i], port, ip) {
      FindFromSpec(conns, port, ip, i + 1, if conns[i].st == Free && free == None then Some(i) else free);
    }
  }

  /** The live connection of the peer, else a free slot, else nothing. */
  predicate FindIsRight(conns: seq<Conn>, port: u16, ip: word, r: Option<nat>) {
    match r
    case None => NoMatch(conns, port, ip, 0, |conns|) && forall j :: 0 <= j < |conns| ==> conns[j].st != Free
    case Some(i) =>
      i < |conns| && (Matches(conns[i], port, ip) || (conns[i].st == Free && NoMatch(conns, port, ip, 0, |conns|)))
  }

  lemma FindSpec(conns: seq<Conn>, port: u16, ip: word)
    ensures FindIsRight(conns, port, ip, Find(conns, port, ip))
  {
    FindFromSpec(conns, port, ip, 0, None);
  }

  // ---------------------------------------------------------------- one step on the table

  /** A legal move of one connection between calls. */
  predicate Moves(a: St, b: St) {
    || a == b
    || (a == Free && b == SynRcvd)
    || (a == SynRcvd && b == Established)
    || (a == Established && b == LastAck)
    || (a == LastAck && b == Free)
  }

  predicate Unique(conns: seq<Conn>) {
    forall i, j :: 0 <= i < j < |conns| && conns[i].st != Free && conns[j].st != Free
      ==> conns[i].peerIp != conns[j].peerIp || conns[i].peerPort != conns[j].peerPort
  }

  /** Slow start, avoidance and halving keep the window positive and bounded. top is the largest threshold so far. */
  predicate RenoSane(c: Conn, top: nat) {
    c.st != Free ==>
      && 2 * MSS <= c.ssthresh <= top && c.dupAcks <= 2
      && 1 <= c.cwnd <= Max(MSS * MSS + 1, top + 3 * MSS)
  }

  function Max(a: nat, b: nat): nat { if a < b then b else a }

  /** What holds between calls; tops holds each connection's largest threshold so far. */
  predicate Inv(t: State, tops: seq<nat>) {
    && Valid(t) && Unique(t.conns) && |tops| == MAX_CONN
    && forall i :: 0 <= i < MAX_CONN ==> Good(t.conns[i], tops[i])
  }

  predicate Good(c: Conn, top: nat) {
    c.st != Listen && Sound(c) && RenoSane(c, top) && top <= 0x8000_0000
  }

  function Peak(before: Conn, after: Conn, top: nat): nat {
    if before.st != Free then Max(top, after.ssthresh) else if after.st == Free then top else after.ssthresh
  }

  /** The largest thresholds after a step: a new connection starts its own count. */
  function Peaks(t: State, u: State, tops: seq<nat>): seq<nat>
    requires |t.conns| == |u.conns| == |tops| == MAX_CONN
  {
    seq(MAX_CONN, i requires 0 <= i < MAX_CONN => Peak(t.conns[i], u.conns[i], tops[i]))
  }

  /** The slot a received segment is handled in, if any. */
  function Handled(t: State, s: Segment): Option<nat>
    requires Valid(t)
  {
    if s.dstPort != ECHO_PORT then None
    else
      match Find(t.conns, s.srcPort, s.srcIp)
      case None => None
      case Some(i) => if i < MAX_CONN && (t.conns[i].st != Free || Opens(t.conns[i], s)) then Some(i) else None
  }

  /** The connection before the switch. */
  function Before(t: State, s: Segment, i: nat): Conn
    requires Valid(t) && AllSound(t) && i < MAX_CONN && s.peer.wscale <= 7
  {
    Noted(if t.conns[i].st == Free then Opened(s) else t.conns[i], s)
  }

  lemma ReceiveForm(t: State, s: Segment)
    requires Valid(t) && AllSound(t) && ValidSegment(s) && s.peer.wscale <= 7
    ensures var h := Handled(t, s);
      Receive(t, s) ==
        if h.None? then (t, None) else Switch(t.(conns := t.conns[h.value := Before(t, s, h.value)]), h.value, s)
  {
  }

  lemma OnAckKeeps(c: Conn, ack: word)
    requires c.cwnd > 0
    ensures var d := OnAck(c, ack);
      d.st == c.st && d.peerPort == c.peerPort && d.peerIp == c.peerIp && d.peerWscale == c.peerWscale
      && d.sndSeq == c.sndSeq
      && d.peerSeq == c.peerSeq
  {
  }

  lemma NotedKeeps(c: Conn, s: Segment)
    requires c.cwnd > 0 && c.peerWscale <= 7
    ensures var d := Noted(c, s);
      d.st == c.st && d.peerPort == c.peerPort && d.peerIp == c.peerIp && d.peerWscale == c.peerWscale
      && d.sndSeq == c.sndSeq
      && d.peerSeq == c.peerSeq
  {
    hide OnAck;
    if HasAck(s.flags) {
      OnAckKeeps(c.(peerWindow := s.wnd * Shift(c.peerWscale)), s.ackNo);
    }
  }

  // ---------------------------------------------------------------- Reno

  /** One acknowledgement, whatever its number. */
  lemma OnAckSane(c: Conn, ack: word, top: nat)
    requires c.st != Free && RenoSane(c, top) && top <= 0x8000_0000
    ensures var d := OnAck(c, ack);
      RenoSane(d, Max(top, d.ssthresh)) && d.ssthresh <= Max(top, 0x7FFF_FFFF)
  {
    hide Growth, Minus;
    if Minus(ack, c.lastAck) == 0 {
    } else {
      NewAckSane(c, ack, top);
    }
  }

  lemma NewAckSane(c: Conn, ack: word, top: nat)
    requires c.st != Free && RenoSane(c, top) && top <= 0x8000_0000 && Minus(ack, c.lastAck) != 0
    ensures var d := OnAck(c, ack);
      RenoSane(d, Max(top, d.ssthresh)) && d.ssthresh <= Max(top, 0x7FFF_FFFF)
  {
    hide Growth, Minus;
    if c.cwnd >= c.ssthresh {
      Avoidance(c.cwnd);
    }
  }

  /** Congestion avoidance never takes the window past 211601, and leaves a larger one alone. */
  lemma Avoidance(w: nat)
    requires w >= 2 * MSS
    ensures w <= MSS * MSS ==> w + Growth(w) <= MSS * MSS + 1
    ensures w > MSS * MSS ==> Growth(w) == 0
  {
    if w <= MSS * MSS {
      DivBound(MSS * MSS, w);
    }
  }

  /** w + n / w is at most n + 1 for 1 <= w <= n. */
  lemma {:induction false} DivBound(n: nat, w: nat)
    requires 1 <= w <= n
    ensures w + n / w <= n + 1
    decreases n
  {
    if n < 2 * w {
      QuotientOne(n, w);
    } else {
      DivBound(n - w, w);
      QuotientStep(n, w);
    }
  }

  lemma QuotientOne(n: nat, w: nat)
    requires 1 <= w <= n < 2 * w
    ensures n / w == 1
  {
  }

  lemma QuotientStep(n: nat, w: nat)
    requires 1 <= w <= n
    ensures n / w == (n - w) / w + 1
  {
    SameQuotient(w, n / w, (n - w) / w, n % w, (n - w) % w);
  }

  lemma SameQuotient(w: nat, a: nat, b: nat, r: nat, s: nat)
    requires w > 0 && r < w && s < w && w * a + r == w * b + s + w
    ensures a == b + 1
  {
    assert w * (a - b - 1) == w * a - w * b - w;
    SmallMultiple(w, a - b - 1);
  }

  lemma SmallMultiple(w: int, k: int)
    requires w > 0 && -w < w * k < w
    ensures k == 0
  {
    Multiples(w, k);
  }

  lemma {:induction false} Multiples(w: int, k: int)
    requires w > 0
    ensures k >= 1 ==> w * k >= w
    ensures k <= -1 ==> w * k <= -w
    decreases if k < 0 then -k else k
  {
    if k > 1 {
      Multiples(w, k - 1);
      assert w * k == w * (k - 1) + w;
    } else if k < -1 {
      Multiples(w, k + 1);
      assert w * k == w * (k + 1) - w;
    }
  }

  // ---------------------------------------------------------------- one step keeps everything

  lemma SwitchMoves(t: State, i: nat, s: Segment)
    requires Valid(t) && i < MAX_CONN && ValidSegment(s)
    ensures var d := Switch(t, i, s).0.conns;
      && |d| == MAX_CONN
      && (forall j :: 0 <= j < MAX_CONN && j != i ==> d[j] == t.conns[j])
      && d[i].ssthresh == t.conns[i].ssthresh && d[i].cwnd == t.conns[i].cwnd && d[i].dupAcks == t.conns[i].dupAcks
      && d[i].peerWscale == t.conns[i].peerWscale
      && (t.conns[i].st != Listen ==>
            Moves(t.conns[i].st, d[i].st) && d[i].peerIp == t.conns[i].peerIp && d[i].peerPort == t.conns[i].peerPort)
      && (t.conns[i].st == Listen && HasSyn(s.flags) ==>
            d[i].st == SynRcvd && d[i].peerIp == s.srcIp && d[i].peerPort == s.srcPort)
      && (t.conns[i].st != Free && t.conns[i].st != LastAck && t.conns[i].st != Listen ==> d[i].st != Free)
  {
    hide Queue;
  }

  /** The connection before the switch is as sane as it was, with its own largest threshold. */
  lemma BeforeGood(c: Conn, s: Segment, top: nat)
    requires Good(c, top) && s.peer.wscale <= 7 && (c.st != Free || Opens(c, s))
    ensures var b := Noted(if c.st == Free then Opened(s) else c, s);
      && b.st == (if c.st == Free then Listen else c.st) && b.peerWscale <= 7
      && (c.st != Free ==> b.peerIp == c.peerIp && b.peerPort == c.peerPort)
      && RenoSane(b, Peak(c, b, top)) && Peak(c, b, top) <= 0x8000_0000
  {
    if c.st == Free {
      assert !HasAck(s.flags);
    } else {
      NotedKeeps(c, s);
      if HasAck(s.flags) {
        hide OnAck;
        OnAckSane(c.(peerWindow := s.wnd * Shift(c.peerWscale)), s.ackNo, top);
      }
    }
  }

  /** The switch only moves the state and the numbers. */
  lemma SwitchGood(t: State, i: nat, s: Segment, top: nat)
    requires Valid(t) && i < MAX_CONN && ValidSegment(s)
    requires RenoSane(t.conns[i], top) && top <= 0x8000_0000 && t.conns[i].peerWscale <= 7 && t.conns[i].st != Free
    requires t.conns[i].st == Listen ==> HasSyn(s.flags)
    ensures Good(Switch(t, i, s).0.conns[i], top)
  {
    hide Queue;
  }

  lemma UniqueAfter(t: State, d: seq<Conn>, i: nat, s: Segment)
    requires Valid(t) && Unique(t.conns) && i < MAX_CONN && |d| == MAX_CONN && Handled(t, s) == Some(i)
    requires forall j :: 0 <= j < MAX_CONN && j != i ==> d[j] == t.conns[j]
    requires t.conns[i].st != Free ==> d[i].peerIp == t.conns[i].peerIp && d[i].peerPort == t.conns[i].peerPort
    requires t.conns[i].st == Free ==> d[i].peerIp == s.srcIp && d[i].peerPort == s.srcPort
    ensures Unique(d)
  {
    FindSpec(t.conns, s.srcPort, s.srcIp);
    hide Find;
    forall j, k | 0 <= j < k < |d| && d[j].st != Free && d[k].st != Free
      ensures d[j].peerIp != d[k].peerIp || d[j].peerPort != d[k].peerPort
    {
      var o := if j == i then k else j;
      assert !Matches(t.conns[o], s.srcPort, s.srcIp) || t.conns[i].st != Free;
    }
  }

  lemma HandledStep(t: State, s: Segment, i: nat, tops: seq<nat>)
    requires Inv(t, tops) && ValidSegment(s) && s.peer.wscale <= 7 && Handled(t, s) == Some(i)
    ensures AllSound(t)
    ensures var u := Receive(t, s).0; Inv(u, Peaks(t, u, tops))
    ensures forall j :: 0 <= j < MAX_CONN ==> Moves(t.conns[j].st, Receive(t, s).0.conns[j].st)
  {
    hide RenoSane, Noted, Opened;
    ReceiveForm(t, s);
    var c := t.conns[i];
    var b := Before(t, s, i);
    BeforeGood(c, s, tops[i]);
    var v := t.(conns := t.conns[i := b]);
    SwitchMoves(v, i, s);
    SwitchGood(v, i, s, Peak(c, b, tops[i]));
    hide Switch, Handled;
    var u := Switch(v, i, s).0;
    UniqueAfter(t, u.conns, i, s);
    forall j | 0 <= j < MAX_CONN ensures Good(u.conns[j], Peaks(t, u, tops)[j]) {
      if j != i {
        PeakSame(t.conns[j], tops[j]);
      }
    }
  }

  lemma PeakSame(c: Conn, top: nat)
    requires Good(c, top)
    ensures Good(c, Peak(c, c, top))
  {
  }

  /** Between calls the table stays well formed: live connections have distinct peers, every connection makes a legal
      move, and Reno's numbers stay within their bounds whatever is acknowledged. */
  lemma StepKeepsInv(t: State, e: Event, tops: seq<nat>)
    requires Inv(t, tops) && ValidEvent(e)
    ensures AllSound(t)
    ensures var u := Step(t, e).0; Inv(u, Peaks(t, u, tops))
    ensures forall i :: 0 <= i < MAX_CONN ==> Moves(t.conns[i].st, Step(t, e).0.conns[i].st)
  {
    match e
    case Idle => MaintainKeeps(t, tops);
    case Rx(s) =>
      ReceiveForm(t, s);
      var h := Handled(t, s);
      if h.Some? {
        HandledStep(t, s, h.value, tops);
      } else {
        forall i | 0 <= i < MAX_CONN ensures Good(t.conns[i], Peaks(t, t, tops)[i]) {
          PeakSame(t.conns[i], tops[i]);
        }
      }
  }

  lemma MaintainKeeps(t: State, tops: seq<nat>)
    requires Inv(t, tops)
    ensures var u := Maintain(t).0; Inv(u, Peaks(t, u, tops))
    ensures forall i :: 0 <= i < MAX_CONN ==> t.conns[i].st == Maintain(t).0.conns[i].st
  {
    var u := Maintain(t).0;
    forall i | 0 <= i < MAX_CONN ensures Good(u.conns[i], Peaks(t, u, tops)[i]) {
      PeakSame(t.conns[i], tops[i]);
    }
  }

  // ---------------------------------------------------------------- runs

  /** The state, the largest thresholds and the segments sent after a run. */
  function Run(t: State, tops: seq<nat>, es: seq<Event>): (r: (State, seq<nat>, seq<Out>))
    requires Inv(t, tops) && ValidEvents(es)
    ensures Inv(r.0, r.1)
    decreases |es|
  {
    if es == [] then (t, tops, [])
    else
      StepKeepsInv(t, es[0], tops);
      var (u, out) := Step(t, es[0]);
      var (v, p, rest) := Run(u, Peaks(t, u, tops), es[1..]);
      (v, p, (if out.Some? then [out.value] else []) + rest)
  }

  const TOPS0: seq<nat> := [65535, 65535, 65535]

  lemma InitInv()
    ensures Inv(INIT, TOPS0) && |INIT.bufs| == MAX_CONN * SEND_BUF
  {
  }

  /** In every run from power-up: live connections have pairwise distinct peers; no threshold is below two segments;
      no window is zero or above max(211601, that connection's largest threshold + three segments), so it never
      wraps; fewer than three duplicate acknowledgements are on count. */
  lemma TableAndRenoSane(es: seq<Event>)
    requires ValidEvents(es)
    ensures Inv(INIT, TOPS0)
    ensures var (t, tops, _) := Run(INIT, TOPS0, es);
      && (forall i, j :: 0 <= i < j < MAX_CONN && t.conns[i].st != Free && t.conns[j].st != Free
            ==> (t.conns[i].peerIp, t.conns[i].peerPort) != (t.conns[j].peerIp, t.conns[j].peerPort))
      && (forall i :: 0 <= i < MAX_CONN && t.conns[i].st != Free ==>
            var c := t.conns[i];
            && 920 <= c.ssthresh <= tops[i] && c.dupAcks <= 2
            && 1 <= c.cwnd <= Max(211601, tops[i] + 1380) && tops[i] + 1380 < WRAP)
  {
    InitInv();
  }
}
