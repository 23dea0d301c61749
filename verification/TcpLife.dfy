/** The life of a connection, exactly: which segment moves it where, what is sent at once, and that a closed connection
    gives its slot back. */
module TcpLife {
  import opened Bytes
  import opened TcpOptions
  import opened Tcp
  import opened TcpTable
  import opened TcpHandshake

  // ---------------------------------------------------------------- one segment

  /** The state a handled segment leaves its connection in; section 3.10 of RFC 9293, as far as the stack goes. */
  function NextState(c: Conn, s: Segment): St {
    match c.st
    case Free => SynRcvd
    case SynRcvd => if HasAck(s.flags) && s.ackNo == c.sndSeq then Established else SynRcvd
    case Established => if HasFin(s.flags) then LastAck else Established
    case LastAck => if HasAck(s.flags) then Free else LastAck
    case Listen => Listen
  }

  /** A segment is handled in a slot exactly if it is for the echo port and either that slot's live connection is the
      sender's, or the sender has none, the slot is the first free one, and the segment is a SYN without ACK. */
  lemma HandledIff(t: State, s: Segment, tops: seq<nat>, i: nat)
    requires Inv(t, tops) && i < MAX_CONN
    ensures Handled(t, s) == Some(i) <==>
      && s.dstPort == ECHO_PORT
      && (Matches(t.conns[i], s.srcPort, s.srcIp)
          || (&& NoMatch(t.conns, s.srcPort, s.srcIp, 0, MAX_CONN) && t.conns[i].st == Free
              && (forall j :: 0 <= j < i ==> t.conns[j].st != Free) && HasSyn(s.flags) && !HasAck(s.flags)))
  {
    hide Good, HasSyn, HasAck;
    FindExactly(t.conns, s.srcPort, s.srcIp, i);
  }

  /** On a table without double peers the lookup finds exactly the match, or the first free slot without one. */
  lemma FindExactly(conns: seq<Conn>, port: u16, ip: word, i: nat)
    requires |conns| == MAX_CONN && Unique(conns) && i < MAX_CONN
    ensures Find(conns, port, ip) == Some(i) <==>
      || Matches(conns[i], port, ip)
      || (&& NoMatch(conns, port, ip, 0, MAX_CONN) && conns[i].st == Free
          && forall j :: 0 <= j < i ==> conns[j].st != Free)
  {
    var f1: Option<nat> := if conns[0].st == Free then Some(0) else None;
    var f2 := if conns[1].st == Free && f1 == None then Some(1) else f1;
    var f3 := if conns[2].st == Free && f2 == None then Some(2) else f2;
    assert FindFrom(conns, port, ip, 3, f3) == f3;
    assert FindFrom(conns, port, ip, 2, f2) == if Matches(conns[2], port, ip) then Some(2) else f3;
    assert FindFrom(conns, port, ip, 1, f1)
        == if Matches(conns[1], port, ip) then Some(1) else FindFrom(conns, port, ip, 2, f2);
  }

  /** Every handled segment, exactly: its connection moves as NextState says and no other changes; and a segment that is
      handled nowhere changes nothing. */
  lemma MovesExactly(t: State, s: Segment, tops: seq<nat>)
    requires Inv(t, tops) && ValidEvent(Rx(s))
    ensures AllSound(t)
    ensures var (u, h) := (Receive(t, s).0, Handled(t, s));
      && (h.None? ==> u == t && Receive(t, s).1 == None)
      && (h.Some? ==> u.conns[h.value].st == NextState(t.conns[h.value], s))
      && (forall j :: 0 <= j < MAX_CONN && h != Some(j) ==> u.conns[j] == t.conns[j])
  {
    hide Good, Unique, Noted, Opened, Queue;
    StepKeepsInv(t, Rx(s), tops);
    ReceiveForm(t, s);
    var h := Handled(t, s);
    if h.Some? {
      BeforeIs(t, s, h.value, tops);
      hide Handled;
    }
  }

  lemma BeforeIs(t: State, s: Segment, i: nat, tops: seq<nat>)
    requires Inv(t, tops) && ValidEvent(Rx(s)) && AllSound(t) && Handled(t, s) == Some(i)
    ensures i < MAX_CONN && t.conns[i].st != Listen && (t.conns[i].st == Free ==> Opens(t.conns[i], s))
    ensures var b, c := Before(t, s, i), t.conns[i];
      && (c.st == Free ==> b.st == Listen && b.sndSeq == ISN)
      && (c.st != Free ==> b.st == c.st && b.sndSeq == c.sndSeq && b.peerIp == c.peerIp && b.peerPort == c.peerPort)
  {
    hide Unique, OnAck, Find;
    assert Good(t.conns[i], tops[i]);
    NotedKeeps(if t.conns[i].st == Free then Opened(s) else t.conns[i], s);
  }

  /** What is sent at once: a SYN-ACK for an opening SYN, a FIN-ACK for a FIN on an established connection. */
  predicate Replies(c: Conn, s: Segment) { c.st == Free || (c.st == Established && HasFin(s.flags)) }

  /** Every reply, exactly. An opening SYN is answered from the initial number, acknowledging its own number plus one; a
      FIN is answered from the next number, acknowledging the segment's payload and the FIN; both to the sender. */
  lemma RepliesExactly(t: State, s: Segment, tops: seq<nat>)
    requires Inv(t, tops) && ValidEvent(Rx(s))
    ensures AllSound(t)
    ensures var (out, h) := (Receive(t, s).1, Handled(t, s));
      && (out.Some? <==> h.Some? && Replies(t.conns[h.value], s))
      && (out.Some? ==>
            var c, o := t.conns[h.value], out.value;
            && o.cid == h.value && o.payload == [] && o.conn.peerIp == s.srcIp && o.conn.peerPort == s.srcPort
            && (c.st == Free ==>
                  o.flags == SYN + ACK && o.conn.sndSeq == ISN && o.conn.peerSeq == Plus(s.seqNo, 1))
            && (c.st == Established ==>
                  && o.flags == FIN + ACK && o.conn.sndSeq == c.sndSeq
                  && o.conn.peerSeq == Plus(s.seqNo, |s.payload| + 1)))
  {
    hide Good, Unique, Noted, Opened, Queue;
    StepKeepsInv(t, Rx(s), tops);
    ReceiveForm(t, s);
    var h := Handled(t, s);
    if h.Some? {
      BeforeIs(t, s, h.value, tops);
      HandledIff(t, s, tops, h.value);
      hide Handled;
    }
  }

  /** The numbers a handled segment leaves: an opening SYN counts as one on either side; from an established connection
      the payload and the FIN are acknowledged whole; nothing else moves a number. */
  lemma NumbersExactly(t: State, s: Segment, tops: seq<nat>, i: nat)
    requires Inv(t, tops) && ValidEvent(Rx(s)) && Handled(t, s) == Some(i)
    ensures AllSound(t) && i < MAX_CONN
    ensures var (c, d, fin) := (t.conns[i], Receive(t, s).0.conns[i], HasFin(s.flags));
      && (c.st == Free ==> d.sndSeq == Plus(ISN, 1) && d.peerSeq == Plus(s.seqNo, 1)
                           && d.peerIp == s.srcIp && d.peerPort == s.srcPort)
      && (c.st == Established ==> d.sndSeq == (if fin then Plus(c.sndSeq, 1) else c.sndSeq)
                                  && d.peerSeq == Plus(s.seqNo, |s.payload| + if fin then 1 else 0))
      && (c.st == SynRcvd || c.st == LastAck ==> d.sndSeq == c.sndSeq && d.peerSeq == c.peerSeq)
  {
    hide Good, Unique, Noted, Opened, Queue;
    StepKeepsInv(t, Rx(s), tops);
    ReceiveForm(t, s);
    BeforeIs(t, s, i, tops);
    if t.conns[i].st != Free {
      BeforePeerSeq(t, s, i, tops);
    }
    SpanOne();
    hide Handled;
  }

  lemma BeforePeerSeq(t: State, s: Segment, i: nat, tops: seq<nat>)
    requires Inv(t, tops) && ValidEvent(Rx(s)) && AllSound(t) && i < MAX_CONN && t.conns[i].st != Free
    ensures Before(t, s, i).peerSeq == t.conns[i].peerSeq
  {
    hide OnAck, Unique, Good;
    NotedKeeps(t.conns[i], s);
  }

  lemma SpanOne()
    ensures Span(SYN + ACK, 0) == 1 && Span(FIN + ACK, 0) == 1
  {
  }

  /** An idle pass sends exactly if bytes are parked: a chunk from their connection, acknowledging what it has
      received. */
  lemma IdleExactly(t: State, tops: seq<nat>)
    requires Inv(t, tops)
    ensures var (u, out) := Maintain(t);
      && (out.Some? <==> Parked(t) != [])
      && (out.Some? ==>
            var o := out.value;
            && o.cid == t.qCid && o.flags == ACK && o.conn == t.conns[t.qCid]
            && 0 < |o.payload| && o.payload <= Parked(t) && (o.payload == Parked(t) || |o.payload| == TX_CHUNK)
            && u.conns[t.qCid].sndSeq == Plus(o.conn.sndSeq, |o.payload|))
      && forall j :: 0 <= j < MAX_CONN && (out.None? || j != t.qCid) ==> u.conns[j] == t.conns[j]
  {
    hide Good, Unique;
  }

  // ---------------------------------------------------------------- a whole life

  predicate Leaving(e: Event, port: u16, ip: word) { FromPeer(e, port, ip) && HasFin(e.seg.flags) }

  predicate Parting(e: Event, port: u16, ip: word) { FromPeer(e, port, ip) && HasAck(e.seg.flags) }

  /** The events of one connection's life from a stage on: a SYN, whatever else until the acknowledgement of the
      SYN-ACK, segments without FIN, a FIN, segments without ACK, and an acknowledgement; nothing for the echo port
      from others. */
  predicate Life(es: seq<Event>, stage: nat, port: u16, ip: word)
    decreases |es|
  {
    if es == [] then stage == 4
    else
      var e, rest := es[0], es[1..];
      || (Aside(e) && Life(rest, stage, port, ip))
      || (stage == 0 && Opening(e, port, ip) && Life(rest, 1, port, ip))
      || (stage == 1 && FromPeer(e, port, ip) && Life(rest, if Confirming(e, port, ip) then 2 else 1, port, ip))
      || (stage == 2 && FromPeer(e, port, ip) && Life(rest, if Leaving(e, port, ip) then 3 else 2, port, ip))
      || (stage == 3 && FromPeer(e, port, ip) && Life(rest, if Parting(e, port, ip) then 4 else 3, port, ip))
  }

  /** Slot 0 in its stage, the others free. */
  predicate Alive(t: State, stage: nat, port: u16, ip: word) {
    && Valid(t) && t.conns[1].st == t.conns[2].st == Free && (stage <= 1 ==> t.qLen == t.qOff)
    && if stage == 0 || stage >= 4 then t.conns[0].st == Free
       else
         && Matches(t.conns[0], port, ip)
         && (stage == 1 ==> t.conns[0].st == SynRcvd && t.conns[0].sndSeq == Plus(ISN, 1))
         && (stage == 2 ==> t.conns[0].st == Established)
         && (stage == 3 ==> t.conns[0].st == LastAck)
  }

  lemma AsideLives(t: State, tops: seq<nat>, e: Event, stage: nat, port: u16, ip: word)
    requires Inv(t, tops) && ValidEvent(e) && Alive(t, stage, port, ip) && Aside(e)
    ensures AllSound(t) && Alive(Step(t, e).0, stage, port, ip)
  {
    hide Good, Unique, Receive, Maintain;
    StepKeepsInv(t, e, tops);
    if e.Idle? {
      IdleLives(t, stage, port, ip);
    } else {
      AsideIgnored(t, e.seg);
    }
  }

  lemma AsideIgnored(t: State, s: Segment)
    requires Valid(t) && AllSound(t) && ValidEvent(Rx(s)) && s.dstPort != ECHO_PORT
    ensures Receive(t, s) == (t, None)
  {
  }

  predicate SamePeer(c: Conn, d: Conn) { c.st == d.st && c.peerIp == d.peerIp && c.peerPort == d.peerPort }

  lemma IdleLives(t: State, stage: nat, port: u16, ip: word)
    requires Valid(t) && Alive(t, stage, port, ip)
    ensures Alive(Maintain(t).0, stage, port, ip)
  {
    var u := Maintain(t).0;
    assert forall j :: 0 <= j < MAX_CONN ==> SamePeer(u.conns[j], t.conns[j]);
  }

  /** The stage after a segment of the peer. */
  function Next(e: Event, stage: nat, port: u16, ip: word): nat {
    if stage == 0 then 1
    else if stage == 1 then if Confirming(e, port, ip) then 2 else 1
    else if stage == 2 then if Leaving(e, port, ip) then 3 else 2
    else if Parting(e, port, ip) then 4 else 3
  }

  lemma SegmentLives(t: State, tops: seq<nat>, e: Event, stage: nat, port: u16, ip: word)
    requires Inv(t, tops) && ValidEvent(e) && Alive(t, stage, port, ip) && FromPeer(e, port, ip) && stage < 4
    requires stage == 0 ==> Opening(e, port, ip)
    ensures AllSound(t) && Alive(Step(t, e).0, Next(e, stage, port, ip), port, ip)
  {
    hide Good, Unique, Receive;
    FindFirst(t.conns, port, ip);
    hide Find;
    MovesExactly(t, e.seg, tops);
    NumbersExactly(t, e.seg, tops, 0);
    PeerStays(t, e.seg, tops, 0);
  }

  lemma PeerStays(t: State, s: Segment, tops: seq<nat>, i: nat)
    requires Inv(t, tops) && ValidEvent(Rx(s)) && Handled(t, s) == Some(i) && i < MAX_CONN
    ensures AllSound(t) && Valid(Receive(t, s).0)
    ensures var d := Receive(t, s).0.conns[i];
      t.conns[i].st != Free ==> d.peerIp == t.conns[i].peerIp && d.peerPort == t.conns[i].peerPort
    ensures var u := Receive(t, s).0; t.conns[i].st != Established ==> u.qLen == t.qLen && u.qOff == t.qOff
  {
    hide Good, Unique, Noted, Opened, Queue;
    StepKeepsInv(t, Rx(s), tops);
    ReceiveForm(t, s);
    BeforeIs(t, s, i, tops);
    hide Handled;
  }

  /** A whole life leaves slot 0 free again, with all three slots free. */
  lemma {:induction false} LifeEnds(t: State, tops: seq<nat>, es: seq<Event>, stage: nat, port: u16, ip: word)
    requires Inv(t, tops) && ValidEvents(es) && Alive(t, stage, port, ip) && Life(es, stage, port, ip)
    ensures Alive(Run(t, tops, es).0, 4, port, ip)
    decreases |es|
  {
    hide Step, Good, Unique, Peaks, Alive, Opening, Confirming, Leaving, Parting, Next;
    if es != [] {
      var e := es[0];
      StepKeepsInv(t, e, tops);
      var u := Step(t, e).0;
      if Aside(e) && Life(es[1..], stage, port, ip) {
        AsideLives(t, tops, e, stage, port, ip);
        LifeEnds(u, Peaks(t, u, tops), es[1..], stage, port, ip);
      } else {
        LifeStep(es, stage, port, ip);
        SegmentLives(t, tops, e, stage, port, ip);
        LifeEnds(u, Peaks(t, u, tops), es[1..], Next(e, stage, port, ip), port, ip);
      }
    }
  }

  lemma LifeStep(es: seq<Event>, stage: nat, port: u16, ip: word)
    requires es != [] && Life(es, stage, port, ip) && !(Aside(es[0]) && Life(es[1..], stage, port, ip))
    ensures FromPeer(es[0], port, ip) && stage < 4 && (stage == 0 ==> Opening(es[0], port, ip))
    ensures Life(es[1..], Next(es[0], stage, port, ip), port, ip)
  {
  }

  /** After a whole life from power-up the table serves again: whoever opens next, with whatever number, gets slot 0
      and a SYN-ACK from the initial number that acknowledges that number plus one. */
  lemma NextIsServed(es: seq<Event>, port: u16, ip: word, s: Segment)
    requires ValidEvents(es) && Life(es, 0, port, ip) && ValidEvent(Rx(s))
    requires s.dstPort == ECHO_PORT && HasSyn(s.flags) && !HasAck(s.flags)
    ensures Inv(INIT, TOPS0) && AllSound(Run(INIT, TOPS0, es).0)
    ensures var (u, out) := Receive(Run(INIT, TOPS0, es).0, s);
      && out.Some? && out.value.cid == 0 && out.value.flags == SYN + ACK && out.value.conn.sndSeq == ISN
      && out.value.conn.peerSeq == Plus(s.seqNo, 1)
      && out.value.conn.peerIp == s.srcIp && out.value.conn.peerPort == s.srcPort
      && u.conns[0].st == SynRcvd && Matches(u.conns[0], s.srcPort, s.srcIp)
  {
    hide Step, Good, Unique, Peaks, Life, Receive, HasSyn, HasAck;
    InitInv();
    LifeEnds(INIT, TOPS0, es, 0, port, ip);
    var (t, tops, _) := Run(INIT, TOPS0, es);
    hide Run;
    FindFirst(t.conns, s.srcPort, s.srcIp);
    hide Find;
    MovesExactly(t, s, tops);
    RepliesExactly(t, s, tops);
    NumbersExactly(t, s, tops, 0);
  }
}
