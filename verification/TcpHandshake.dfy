/** The handshake of the echo server, from the empty table to an established connection. */
module TcpHandshake {
  import opened Bytes
  import opened Tcp
  import opened TcpTable

  /** Nothing for the echo port. */
  predicate Aside(e: Event) { e.Rx? ==> e.seg.dstPort != ECHO_PORT }

  predicate FromPeer(e: Event, port: u16, ip: word) {
    e.Rx? && e.seg.dstPort == ECHO_PORT && e.seg.srcPort == port && e.seg.srcIp == ip
  }

  predicate Opening(e: Event, port: u16, ip: word) {
    FromPeer(e, port, ip) && HasSyn(e.seg.flags) && !HasAck(e.seg.flags)
  }

  predicate Confirming(e: Event, port: u16, ip: word) {
    FromPeer(e, port, ip) && HasAck(e.seg.flags) && e.seg.ackNo == Plus(ISN, 1)
  }

  /** The peer opens and confirms once each, in this order; stage says how much of that has happened before. */
  predicate Handshake(es: seq<Event>, stage: nat, port: u16, ip: word)
    decreases |es|
  {
    if es == [] then stage == 2
    else
      || (Aside(es[0]) && Handshake(es[1..], stage, port, ip))
      || (stage == 0 && Opening(es[0], port, ip) && Handshake(es[1..], 1, port, ip))
      || (stage == 1 && Confirming(es[0], port, ip) && Handshake(es[1..], 2, port, ip))
  }

  /** Slot 0 on its way, the others free, the queue empty. */
  predicate At(t: State, stage: nat, port: u16, ip: word) {
    && Valid(t) && t.qLen == t.qOff && t.conns[1].st == t.conns[2].st == Free
    && if stage == 0 then t.conns[0].st == Free
       else
         && Matches(t.conns[0], port, ip) && t.conns[0].sndSeq == Plus(ISN, 1)
         && t.conns[0].st == if stage == 1 then SynRcvd else Established
  }

  lemma FindFirst(conns: seq<Conn>, port: u16, ip: word)
    requires |conns| == 3 && conns[1].st == conns[2].st == Free
    requires conns[0].st == Free || Matches(conns[0], port, ip)
    ensures Find(conns, port, ip) == Some(0)
  {
    if conns[0].st == Free {
      assert FindFrom(conns, port, ip, 3, Some(0)) == Some(0);
      assert FindFrom(conns, port, ip, 2, Some(0)) == Some(0);
      assert FindFrom(conns, port, ip, 1, Some(0)) == Some(0);
    }
  }

  lemma AsideStays(t: State, tops: seq<nat>, e: Event, stage: nat, port: u16, ip: word)
    requires Inv(t, tops) && ValidEvent(e) && At(t, stage, port, ip) && Aside(e)
    ensures AllSound(t) && At(Step(t, e).0, stage, port, ip)
  {
    hide Good, Unique;
    StepKeepsInv(t, e, tops);
  }

  lemma OpeningMoves(t: State, tops: seq<nat>, e: Event, port: u16, ip: word)
    requires Inv(t, tops) && ValidEvent(e) && At(t, 0, port, ip) && Opening(e, port, ip)
    ensures AllSound(t) && At(Step(t, e).0, 1, port, ip)
  {
    hide Good, Unique, Find, Noted, HasSyn, HasAck;
    StepKeepsInv(t, e, tops);
    FindFirst(t.conns, port, ip);
    ReceiveForm(t, e.seg);
    NotedKeeps(Opened(e.seg), e.seg);
    OneMore();
  }

  lemma OneMore()
    ensures Inv(INIT, TOPS0) && Span(SYN + ACK, 0) == 1 && HasSyn(SYN + ACK)
  {
    InitInv();
  }

  lemma ConfirmingMoves(t: State, tops: seq<nat>, e: Event, port: u16, ip: word)
    requires Inv(t, tops) && ValidEvent(e) && At(t, 1, port, ip) && Confirming(e, port, ip)
    ensures AllSound(t) && At(Step(t, e).0, 2, port, ip)
  {
    hide Good, Unique, Find, Noted;
    StepKeepsInv(t, e, tops);
    FindFirst(t.conns, port, ip);
    ReceiveForm(t, e.seg);
    NotedKeeps(t.conns[0], e.seg);
  }

  /** A handshake among segments for other ports leaves slot 0 established at the initial number plus one. */
  lemma {:induction false} Shaken(t: State, tops: seq<nat>, es: seq<Event>, stage: nat, port: u16, ip: word)
    requires Inv(t, tops) && ValidEvents(es) && At(t, stage, port, ip) && Handshake(es, stage, port, ip)
    ensures At(Run(t, tops, es).0, 2, port, ip)
    decreases |es|
  {
    hide Step, Good, Unique, Peaks, At, Opening, Confirming, Aside;
    if es != [] {
      StepKeepsInv(t, es[0], tops);
      var u := Step(t, es[0]).0;
      if Aside(es[0]) && Handshake(es[1..], stage, port, ip) {
        AsideStays(t, tops, es[0], stage, port, ip);
        Shaken(u, Peaks(t, u, tops), es[1..], stage, port, ip);
      } else if stage == 0 {
        OpeningMoves(t, tops, es[0], port, ip);
        Shaken(u, Peaks(t, u, tops), es[1..], 1, port, ip);
      } else {
        ConfirmingMoves(t, tops, es[0], port, ip);
        Shaken(u, Peaks(t, u, tops), es[1..], 2, port, ip);
      }
    }
  }
}
