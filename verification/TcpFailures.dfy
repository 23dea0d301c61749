/** Inputs on which the echo falls short of what it is for, each reached from power-up. */
module TcpFailures {
  import opened Bytes
  import opened TcpOptions
  import opened Tcp
  import opened TcpTable
  import opened TcpEcho

  // ---------------------------------------------------------------- two peers say hello

  function Hello(p: u16): Segment { Segment(p, p, ECHO_PORT, 0, 0, SYN, 1000, DEFAULTS, []) }

  /** The last segment of the handshake, data, and a FIN. */
  function Says(p: u16, flags: Flags, payload: seq<byte>): Segment {
    Segment(p, p, ECHO_PORT, 1, Plus(ISN, 1), flags, 1000, DEFAULTS, payload)
  }

  function Confirm(p: u16): Segment { Says(p, ACK, []) }

  function Half(p: u16): Conn { Conn(SynRcvd, p, p, 1000, 460, 0, Plus(ISN, 1), 1, 0, 0, 460, 65535, 1) }

  function Met(p: u16): Conn { Conn(Established, p, p, 1000, 460, 0, Plus(ISN, 1), 1, Plus(ISN, 1), 0, 920, 65535, 0) }

  lemma HelloHalf(t: State, p: u16, i: nat)
    requires Valid(t) && AllSound(t) && i < MAX_CONN && Find(t.conns, p, p) == Some(i) && t.conns[i] == FREE_CONN
    ensures Receive(t, Hello(p)).0 == t.(conns := t.conns[i := Half(p)])
  {
    hide Find;
  }

  lemma ConfirmMet(t: State, p: u16, i: nat)
    requires Valid(t) && AllSound(t) && i < MAX_CONN && Find(t.conns, p, p) == Some(i) && t.conns[i] == Half(p)
    ensures Receive(t, Confirm(p)).0 == t.(conns := t.conns[i := Met(p)])
  {
    hide Find;
    assert OnAck(Half(p), Plus(ISN, 1)) == Met(p).(st := SynRcvd);
    assert Noted(Half(p), Confirm(p)) == Met(p).(st := SynRcvd);
  }

  function With(t: State, a: Conn, b: Conn): State { t.(conns := [a, b, FREE_CONN]) }

  lemma FindTwo(a: Conn, b: Conn, p: u16)
    ensures Find([a, b, FREE_CONN], p, p)
         == if Matches(a, p, p) then Some(0) else if Matches(b, p, p) then Some(1)
            else Some(if a.st == Free then 0 else if b.st == Free then 1 else 2)
  {
    var c := [a, b, FREE_CONN];
    var f1: Option<nat> := if a.st == Free then Some(0) else None;
    var f2 := if b.st == Free && f1 == None then Some(1) else f1;
    var f3 := if f2 == None then Some(2) else f2;
    assert FindFrom(c, p, p, 3, f3) == f3;
    assert FindFrom(c, p, p, 2, f2) == f3;
    assert FindFrom(c, p, p, 1, f1) == if Matches(b, p, p) then Some(1) else f3;
  }

  // ---------------------------------------------------------------- runs

  lemma RunHead(t: State, tops: seq<nat>, e: Event, es: seq<Event>)
    requires Inv(t, tops) && ValidEvent(e) && ValidEvents(es)
    ensures AllSound(t) && ValidEvents([e] + es)
    ensures var u := Step(t, e).0;
      Inv(u, Peaks(t, u, tops)) && Run(t, tops, [e] + es).0 == Run(u, Peaks(t, u, tops), es).0
  {
    hide Step, Good, Unique, Peaks, ValidEvent;
    StepKeepsInv(t, e, tops);
    assert ([e] + es)[1..] == es;
  }

  /** A run ends in a table, whatever the thresholds. */
  ghost predicate Leads(t: State, tops: seq<nat>, es: seq<Event>, u: State) {
    Inv(t, tops) && ValidEvents(es) && Run(t, tops, es).0 == u
  }

  /** A handshake of peer p. */
  lemma Handshake(t: State, tops: seq<nat>, p: u16, i: nat) returns (tops2: seq<nat>)
    requires Inv(t, tops) && AllSound(t) && i < MAX_CONN && Find(t.conns, p, p) == Some(i) && t.conns[i] == FREE_CONN
    requires Find(t.conns[i := Half(p)], p, p) == Some(i)
    ensures Inv(t.(conns := t.conns[i := Met(p)]), tops2)
    ensures forall es, v :: Leads(t.(conns := t.conns[i := Met(p)]), tops2, es, v) ==>
      Leads(t, tops, [Rx(Hello(p))] + ([Rx(Confirm(p))] + es), v)
  {
    hide Receive, Find, Good, Peaks, Run;
    HelloHalf(t, p, i);
    StepKeepsInv(t, Rx(Hello(p)), tops);
    var u := t.(conns := t.conns[i := Half(p)]);
    var tops1 := Peaks(t, u, tops);
    ConfirmMet(u, p, i);
    StepKeepsInv(u, Rx(Confirm(p)), tops1);
    var v := t.(conns := t.conns[i := Met(p)]);
    assert u.conns[i := Met(p)] == v.conns;
    tops2 := Peaks(u, v, tops1);
    forall es, w | Leads(v, tops2, es, w) ensures Leads(t, tops, [Rx(Hello(p))] + ([Rx(Confirm(p))] + es), w) {
      RunHead(u, tops1, Rx(Confirm(p)), es);
      RunHead(t, tops, Rx(Hello(p)), [Rx(Confirm(p))] + es);
    }
  }

  /** Two handshakes, and data from the first peer. */
  function Story(b: seq<byte>): seq<Event> {
    [Rx(Hello(1))] + ([Rx(Confirm(1))] + ([Rx(Hello(2))] + ([Rx(Confirm(2))] + ([Rx(Says(1, ACK, b))] + []))))
  }

  /** The first connection after its data. */
  function Heard(n: nat): Conn { Met(1).(dupAcks := 1, peerSeq := Plus(1, n)) }

  lemma DataParked(t: State, b: seq<byte>)
    requires Valid(t) && AllSound(t) && t.conns == [Met(1), Met(2), FREE_CONN] && 0 < |b| <= SEND_BUF
    ensures Receive(t, Says(1, ACK, b)).0 == Queue(With(t, Heard(|b|), Met(2)), 0, b)
  {
    hide Queue, Find;
    FindTwo(Met(1), Met(2), 1);
    assert OnAck(Met(1), Plus(ISN, 1)) == Met(1).(dupAcks := 1);
    assert Noted(Met(1), Says(1, ACK, b)) == Met(1).(dupAcks := 1);
    assert t.conns[0 := Met(1).(dupAcks := 1)][0 := Heard(|b|)] == [Heard(|b|), Met(2), FREE_CONN];
  }

  /** The state the story ends in. */
  lemma Told(b: seq<byte>) returns (t: State)
    requires 0 < |b| <= SEND_BUF
    ensures Leads(INIT, TOPS0, Story(b), t) && Valid(t) && AllSound(t)
    ensures t.conns == [Heard(|b|), Met(2), FREE_CONN] && t.qLen == |b| && t.qOff == 0 && t.qCid == 0
    ensures ParkedFor(t, 0) == b
  {
    hide Receive, Find, Good, Peaks, Run;
    InitInv();
    FindTwo(FREE_CONN, FREE_CONN, 1);
    FindTwo(Half(1), FREE_CONN, 1);
    FindTwo(Met(1), FREE_CONN, 2);
    FindTwo(Met(1), Half(2), 2);
    var u, v := With(INIT, Met(1), FREE_CONN), With(INIT, Met(1), Met(2));
    assert INIT.conns[0 := Half(1)] == [Half(1), FREE_CONN, FREE_CONN];
    var tops1 := Handshake(INIT, TOPS0, 1, 0);
    assert INIT.(conns := INIT.conns[0 := Met(1)]) == u;
    StepKeepsInv(u, Idle, tops1);
    assert u.conns[1 := Half(2)] == [Met(1), Half(2), FREE_CONN];
    var tops2 := Handshake(u, tops1, 2, 1);
    assert u.(conns := u.conns[1 := Met(2)]) == v;
    StepKeepsInv(v, Rx(Says(1, ACK, b)), tops2);
    DataParked(v, b);
    t := Receive(v, Says(1, ACK, b)).0;
    QueueParks(With(v, Heard(|b|), Met(2)), 0, b);
    assert b[..|b|] == b;
    LastStep(v, tops2, Rx(Says(1, ACK, b)));
  }

  lemma LastStep(t: State, tops: seq<nat>, e: Event)
    requires Inv(t, tops) && ValidEvent(e)
    ensures AllSound(t) && AllSound(Step(t, e).0) && Leads(t, tops, [e] + [], Step(t, e).0)
  {
    hide Step, Peaks;
    RunHead(t, tops, e, []);
    var u := Step(t, e).0;
    assert Run(u, Peaks(t, u, tops), []).0 == u;
  }

  // ---------------------------------------------------------------- three failures

  /** Two connections mixed up: the second peer's byte is added to the queue of the first. */
  lemma ConnectionsMixed()
    ensures exists t :: Leads(INIT, TOPS0, Story([1]), t) && AllSound(t) && !Conserves(t, Rx(Says(2, ACK, [2])))
  {
    hide Receive, Find, Conserves, Run, Story, Room;
    var t := Told([1]);
    var e := Rx(Says(2, ACK, [2]));
    FindTwo(Heard(1), Met(2), 2);
    RoomLeft(t, [2]);
    var tops := Run(INIT, TOPS0, Story([1])).1;
    StepConservesIff(t, e, tops);
    assert AcceptedBy(t, e, 1) == [2][..1];
  }

  lemma RoomLeft(t: State, p: seq<byte>)
    requires Valid(t) && t.qOff < t.qLen
    ensures Room(t, p) == if SEND_BUF - t.qLen > |p| then |p| else SEND_BUF - t.qLen
  {
  }

  /** Nothing of the payload is accepted, and the acknowledgement number counts all of it. */
  predicate Drops(t: State, s: Segment) {
    && Valid(t) && AllSound(t) && ValidEvent(Rx(s)) && s.payload != []
    && AcceptedBy(t, Rx(s), 0) == [] && Receive(t, s).0.conns[0].peerSeq == Plus(s.seqNo, |s.payload|)
  }

  /** A full queue: the next byte is dropped, and acknowledged all the same. */
  lemma ByteDropped(b: seq<byte>)
    requires |b| == SEND_BUF
    ensures exists t :: Leads(INIT, TOPS0, Story(b), t) && Drops(t, Says(1, ACK, [9]))
  {
    hide Receive, Find, Run, Story, Room;
    var t := Told(b);
    var s := Says(1, ACK, [9]);
    FindTwo(Heard(|b|), Met(2), 1);
    RoomLeft(t, [9]);
    AcknowledgedWhole(t, s, Run(INIT, TOPS0, Story(b)).1, 0);
  }

  /** The FIN goes out with the number of a byte that stays parked. */
  predicate ClosesEarly(t: State, s: Segment) {
    && Valid(t) && AllSound(t) && ValidEvent(Rx(s))
    && var (u, out) := Receive(t, s);
       out.Some? && HasFin(out.value.flags) && out.value.conn.sndSeq == Plus(ISN, 1) && ParkedFor(u, 0) == [1]
  }

  /** A FIN behind a parked byte takes the byte's sequence number, and the byte stays behind. */
  lemma FinAhead()
    ensures exists t :: Leads(INIT, TOPS0, Story([1]), t) && ClosesEarly(t, Says(1, FIN + ACK, []))
  {
    hide Receive, Find, Run, Story, Room, ParkedFor;
    var t := Told([1]);
    var s := Says(1, FIN + ACK, []);
    FindTwo(Heard(1), Met(2), 1);
    var tops := Run(INIT, TOPS0, Story([1])).1;
    ReceiveForm(t, s);
    ReceiveParks(t, s, tops);
    NotedKeeps(t.conns[0], s);
    assert Queue(t, 0, []) == t;
  }
}
