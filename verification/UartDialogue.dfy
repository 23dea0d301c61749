/** Timing of the console: which typed bytes are echoed, when an answer leaves, and when it never does. */
module UartDialogue {
  import opened Bytes
  import opened Uart
  import opened UartRx
  import opened UartTx
  import opened UartCommands

  // ---------------------------------------------------------------- the transmitter's time

  /** The transmitter is idle after exactly k more cycles, if nothing is offered then. */
  predicate BusyFor(t: Tx, k: nat) {
    if k == 0 then !t.active else k < BLOCK && t == Midway(t.data, BLOCK - k)
  }

  function Sub(a: nat, b: nat): nat { if a > b then a - b else 0 }

  lemma BusyStep(t: Tx, k: nat, next: Option<octet>)
    requires BusyFor(t, k)
    ensures BusyFor(TxStep(t, next), if k > 0 then k - 1 else if next.Some? then BLOCK - 1 else 0)
    ensures t.active <==> k > 0
  {
    hide Sampled, PinAt;
    if k > 0 {
      MidwayStep(t.data, BLOCK - k, next);
    } else if next.Some? {
      hide Midway;
      TakenMidway(next.value);
    }
  }

  lemma TakenMidway(o: octet)
    ensures Tx(true, 0, 0, o, 1) == Midway(o, 1)
  {
    StartsHigh(o);
    hide Sampled, PinAt;
  }

  /** Every state of a run is one of these. */
  lemma {:induction false} RunBusy(c: Console, pins: seq<bit>, k: nat) returns (j: nat)
    requires Valid(c) && BusyFor(c.tx, k)
    ensures BusyFor(Run(c, pins).0.tx, j)
    decreases |pins|
  {
    hide BusyFor, Step, Cycle, TxStep, RxStep;
    j := k;
    if pins != [] {
      var n := |pins| - 1;
      j := RunBusy(c, pins[..n], k);
      var d := Run(c, pins[..n]).0;
      StepReceives(d, pins[n]);
      BusyStep(d.tx, j, Offer(d, pins[n]));
      j := if j > 0 then j - 1 else if Offer(d, pins[n]).Some? then BLOCK - 1 else 0;
    }
  }

  // ---------------------------------------------------------------- quiet cycles

  /** Console and transmitter as a cycle finds them. */
  predicate At(c: Console, k: nat) { Valid(c) && !c.pending && BusyFor(c.tx, k) }

  /** The rest of a console's state, untouched. */
  predicate SameQueue(c: Console, d: Console) { d.resp == c.resp && d.remain == c.remain && d.cmd == c.cmd }

  /** A cycle in which no byte completes. */
  lemma QuietStep(c: Console, pin: bit, k: nat)
    requires At(c, k) && Completed(c, pin).None?
    ensures var d := Step(c, pin);
      && Cycle(c, pin).got == [] && Cycle(c, pin).heard == [] && Cycle(c, pin).loaded == []
      && if k > 0 then At(d, k - 1) && SameQueue(c, d) && Cycle(c, pin).sent == []
         else if c.remain == 0 then At(d, 0) && SameQueue(c, d) && Cycle(c, pin).sent == []
         else At(d, BLOCK - 1) && Cycle(c, pin).sent == [Answered(c.resp[0])]
              && d.remain == c.remain - 1 && Queued(d) == Queued(c)[1..] && d.cmd == c.cmd
  {
    hide RxStep, TxStep, BusyFor;
    BusyStep(c.tx, k, Offer(c, pin));
  }

  /** Quiet cycles while the transmitter is busy, or with nothing to send: nothing leaves. */
  lemma {:induction false} QuietBusy(c: Console, pins: seq<bit>, k: nat)
    requires At(c, k) && RxRun(c.rx, pins).1 == [] && (|pins| <= k || c.remain == 0)
    ensures var (d, log) := Run(c, pins);
      At(d, Sub(k, |pins|)) && SameQueue(c, d) && log == NOTHING
    decreases |pins|
  {
    hide At, Step, Cycle, RxStep;
    if pins != [] {
      var n := |pins| - 1;
      IsAt(c, k);
      QuietPrefix(c, pins);
      QuietBusy(c, pins[..n], k);
      var d := Run(c, pins[..n]).0;
      IsAt(d, Sub(k, n));
      QuietStep(d, pins[n], Sub(k, n));
    }
  }

  lemma IsAt(c: Console, k: nat)
    requires At(c, k)
    ensures Valid(c) && !c.pending
  {
  }

  /** No byte completes in a prefix, nor in the cycle after it. */
  lemma QuietPrefix(c: Console, pins: seq<bit>)
    requires Valid(c) && pins != [] && RxRun(c.rx, pins).1 == []
    ensures var n := |pins| - 1;
      RxRun(c.rx, pins[..n]).1 == [] && Completed(Run(c, pins[..n]).0, pins[n]).None?
  {
    hide RxStep, Run;
    var n := |pins| - 1;
    RunReceives(c, pins[..n]);
    var (u, got) := RxRun(c.rx, pins[..n]);
    assert |RxRun(c.rx, pins).1| == |got| + |One(RxStep(u, pins[n]).1)|;
  }

  lemma QuietSplit(s: Rx, a: seq<bit>, b: seq<bit>)
    requires RxValid(s) && RxRun(s, a + b).1 == []
    ensures RxRun(s, a).1 == [] && RxRun(RxRun(s, a).0, b).1 == []
  {
    hide RxStep;
    RxRunAppend(s, a, b);
  }

  function AsAnswers(bs: seq<byte>): (r: seq<Source>)
    ensures |r| == |bs| && forall i :: 0 <= i < |bs| ==> r[i] == Answered(bs[i])
  {
    seq(|bs|, i requires 0 <= i < |bs| => Answered(bs[i]))
  }

  /** In quiet, the queue leaves byte by byte as soon as the transmitter is free, one block each. */
  lemma {:induction false} Drains(c: Console, pins: seq<bit>, k: nat)
    requires At(c, k) && RxRun(c.rx, pins).1 == [] && |pins| >= k + c.remain * BLOCK
    ensures var (d, log) := Run(c, pins);
      At(d, 0) && d.remain == 0 && log == Log([], [], AsAnswers(Queued(c)), []) && d.cmd == c.cmd
    decreases c.remain, 3
  {
    hide RxStep, Step, Cycle, At;
    IsAt(c, k);
    if c.remain == 0 {
      QuietBusy(c, pins, k);
      assert AsAnswers(Queued(c)) == [];
    } else {
      DrainsOne(c, pins, k);
    }
  }

  /** The first queued byte, and the rest by induction. */
  lemma {:induction false} DrainsOne(c: Console, pins: seq<bit>, k: nat)
    requires At(c, k) && RxRun(c.rx, pins).1 == [] && c.remain > 0 && |pins| >= k + c.remain * BLOCK
    ensures var (d, log) := Run(c, pins);
      At(d, 0) && d.remain == 0 && log == Log([], [], AsAnswers(Queued(c)), []) && d.cmd == c.cmd
    decreases c.remain, 2
  {
    hide RxStep, Step, Cycle, At, RxRun, BusyFor;
    IsAt(c, k);
    var a, b := pins[..k], pins[k..];
    assert pins == a + b;
    QuietSplit(c.rx, a, b);
    QuietBusy(c, a, k);
    RunReceives(c, a);
    RunAppend(c, a, b);
    DrainsIdle(Run(c, a).0, b);
  }

  /** From an idle transmitter. */
  lemma {:induction false} DrainsIdle(c: Console, pins: seq<bit>)
    requires At(c, 0) && RxRun(c.rx, pins).1 == [] && c.remain > 0 && |pins| >= c.remain * BLOCK
    ensures var (d, log) := Run(c, pins);
      At(d, 0) && d.remain == 0 && log == Log([], [], AsAnswers(Queued(c)), []) && d.cmd == c.cmd
    decreases c.remain, 1
  {
    hide RxStep, Step, Cycle, At, RxRun, BusyFor;
    IsAt(c, 0);
    var a, b := pins[..1], pins[1..];
    assert pins == a + b;
    FirstTaken(c, pins);
    var e := Run(c, a).0;
    QuietSplit(c.rx, a, b);
    RunReceives(c, a);
    RunAppend(c, a, b);
    IsAt(e, BLOCK - 1);
    Drains(e, b, BLOCK - 1);
    assert AsAnswers(Queued(c)) == [Answered(c.resp[0])] + AsAnswers(Queued(e));
  }

  /** An idle transmitter takes the first queued byte in a quiet cycle. */
  lemma FirstTaken(d: Console, b: seq<bit>)
    requires At(d, 0) && d.remain > 0 && b != [] && RxRun(d.rx, b).1 == []
    ensures var (e, log) := Run(d, b[..1]);
      At(e, BLOCK - 1) && log == Log([], [], [Answered(d.resp[0])], [])
      && e.remain == d.remain - 1 && Queued(e) == Queued(d)[1..] && e.cmd == d.cmd
  {
    hide RxStep, Step, At;
    IsAt(d, 0);
    assert b == b[..1] + b[1..];
    QuietSplit(d.rx, b[..1], b[1..]);
    assert b[..1][..0] == [] && Run(d, b[..1][..0]) == (d, NOTHING);
    QuietPrefix(d, b[..1]);
    QuietStep(d, b[0], 0);
    assert Join(NOTHING, Cycle(d, b[0])) == Cycle(d, b[0]);
  }

  // ---------------------------------------------------------------- one frame

  /** The cycle in which a byte completes. */
  lemma CompletingStep(c: Console, pin: bit, k: nat, o: octet)
    requires At(c, k) && Completed(c, pin) == Some(o)
    ensures var d := Step(c, pin);
      && At(d, if k > 0 then k - 1 else BLOCK - 1)
      && Cycle(c, pin) == Log([o], if k > 0 then [] else [o], if k > 0 then [] else [Echoed(o)], Loads(c, Some(o)))
      && Queued(d) == Queued(c) + Loads(c, Some(o)) && d.remain == |Queued(d)|
      && d.cmd == if LineEnd(ValueOf(o)) then 0 else Match(c.cmd, ValueOf(o))
  {
    hide RxStep, TxStep, BusyFor, ValueOf, Match, Response;
    BusyStep(c.tx, k, Offer(c, pin));
    ResponseFits(c.cmd);
  }

  /** When a byte completing FRAME cycles from now finds the transmitter idle, it is echoed. */
  predicate Hears(k: nat) { k <= FRAME - 1 }

  function HeardIf(o: octet, k: nat): seq<octet> { if Hears(k) then [o] else [] }

  function AsEchoes(os: seq<octet>): (r: seq<Source>)
    ensures |r| == |os| && forall i :: 0 <= i < |os| ==> r[i] == Echoed(os[i])
  {
    seq(|os|, i requires 0 <= i < |os| => Echoed(os[i]))
  }

  function AfterByte(k: nat): nat { if Hears(k) then BLOCK - 1 else k - FRAME }

  /** A frame up to the middle of its stop bit. */
  lemma FrameHead(c: Console, line: seq<bit>, k: nat, o: octet)
    requires Armed(c.rx) && At(c, k) && (c.remain == 0 || k >= FRAME - 1)
    requires FRAME <= |line| && line[0] == 0 && Gathered(line, 9) == o
    ensures var (d, log) := Run(c, line[..FRAME]);
      && At(d, AfterByte(k))
      && log == Log([o], HeardIf(o, k), AsEchoes(HeardIf(o, k)), Loads(c, Some(o)))
      && Queued(d) == Queued(c) + Loads(c, Some(o)) && d.remain == |Queued(d)|
      && d.cmd == if LineEnd(ValueOf(o)) then 0 else Match(c.cmd, ValueOf(o))
  {
    hide RxStep, Step, Cycle, At, Gathered, Run, RxRun, Inside, Match, ValueOf, Loads;
    IsAt(c, k);
    var n := FRAME - 1;
    var a := line[..FRAME];
    assert a[..n] == line[..n];
    InFrame(c.rx, line, n);
    QuietBusy(c, line[..n], k);
    var d := Run(c, line[..n]).0;
    IsAt(d, Sub(k, n));
    LastCompletes(c, line, o);
    CompletingStep(d, line[n], Sub(k, n), o);
    RunLast(c, a);
    SameLoads(c, d, o);
    assert AsEchoes([]) == [] && AsEchoes([o]) == [Echoed(o)];
  }

  lemma RunLast(c: Console, pins: seq<bit>)
    requires Valid(c) && pins != []
    ensures var (d, log) := Run(c, pins[..|pins| - 1]);
      Run(c, pins) == (Step(d, pins[|pins| - 1]), Join(log, Cycle(d, pins[|pins| - 1])))
  {
  }

  lemma SameLoads(c: Console, d: Console, o: octet)
    requires SameQueue(c, d) && Valid(c) && Valid(d)
    ensures Loads(d, Some(o)) == Loads(c, Some(o)) && Queued(d) == Queued(c)
  {
  }

  lemma LastCompletes(c: Console, line: seq<bit>, o: octet)
    requires Valid(c) && Armed(c.rx) && FRAME <= |line| && line[0] == 0 && Gathered(line, 9) == o
    ensures Completed(Run(c, line[..FRAME - 1]).0, line[FRAME - 1]) == Some(o)
  {
    hide RxStep, Gathered, Run;
    var n := FRAME - 1;
    RunReceives(c, line[..n]);
    FrameEnds(c.rx, line);
    InFrame(c.rx, line, n);
    assert line[..FRAME][..n] == line[..n];
    var (u, got) := RxRun(c.rx, line[..n]);
    var out := RxStep(u, line[n]).1;
    var all := RxRun(c.rx, line[..FRAME]).1;
    assert all == got + One(out);
    assert |all| == 1 && all[0] == o && got == [];
    assert out.Some? && all[0] == out.value;
  }

  /** The rest of a frame in time completes nothing. */
  lemma FrameRest(s: Rx, o: octet, p: nat, h: nat)
    requires Armed(s) && InTime(p, h)
    ensures var line := Frame(o, p, h);
      && FRAME <= |line| && line[0] == 0 && Gathered(line, 9) == o
      && RxValid(RxRun(s, line[..FRAME]).0)
      && RxRun(RxRun(s, line[..FRAME]).0, line[FRAME..]).1 == []
      && Armed(RxRun(RxRun(s, line[..FRAME]).0, line[FRAME..]).0)
  {
    hide RxRun, RxStep, Gathered;
    var line := Frame(o, p, h);
    FrameReceived(s, o, p, h);
    FrameGathers(o, p, h);
    FrameEnds(s, line);
    assert line == line[..FRAME] + line[FRAME..];
    RxRunAppend(s, line[..FRAME], line[FRAME..]);
    var x, y := RxRun(s, line[..FRAME]).1, RxRun(RxRun(s, line[..FRAME]).0, line[FRAME..]).1;
    assert |x + y| == |x| + |y|;
  }

  /** A whole frame, when what it leaves queued cannot begin to leave before it ends. */
  lemma FrameRun(c: Console, o: octet, p: nat, h: nat, k: nat)
    requires Armed(c.rx) && At(c, k) && InTime(p, h) && (c.remain == 0 || k >= FRAME - 1)
    requires Loads(c, Some(o)) == [] && (c.remain == 0 || 9 * p + h - FRAME <= AfterByte(k))
    ensures var (d, log) := Run(c, Frame(o, p, h));
      && Armed(d.rx) && At(d, Sub(AfterByte(k), 9 * p + h - FRAME))
      && log == Log([o], HeardIf(o, k), AsEchoes(HeardIf(o, k)), [])
      && Queued(d) == Queued(c) && d.remain == c.remain
      && d.cmd == if LineEnd(ValueOf(o)) then 0 else Match(c.cmd, ValueOf(o))
  {
    hide RxStep, Step, Cycle, At, Gathered, Run, RxRun, Match, ValueOf, Loads, HeardIf, AfterByte, Frame;
    IsAt(c, k);
    var line := Frame(o, p, h);
    FrameRest(c.rx, o, p, h);
    FrameHead(c, line, k, o);
    var a, b := line[..FRAME], line[FRAME..];
    assert line == a + b;
    RunAppend(c, a, b);
    RunReceives(c, a);
    var (d, log) := Run(c, a);
    IsAt(d, AfterByte(k));
    assert Queued(c) + [] == Queued(c);
    QuietBusy(d, b, AfterByte(k));
    RunReceives(d, b);
    IsAt(Run(d, b).0, Sub(AfterByte(k), |b|));
    JoinAssociates(log, NOTHING, NOTHING);
  }

  // ---------------------------------------------------------------- text

  /** Cycles of a frame typed back to back behind the completion of its byte. */
  function Tail(p: nat): nat { Sub(10 * p, FRAME) }

  /** Which bytes of a text typed back to back are echoed, the transmitter being busy for k cycles at its start. */
  function EchoedOf(text: seq<octet>, k: nat, p: nat): seq<octet>
    decreases |text|
  {
    if text == [] then []
    else HeardIf(text[0], k) + EchoedOf(text[1..], Sub(AfterByte(k), Tail(p)), p)
  }

  function BusyAfter(text: seq<octet>, k: nat, p: nat): nat
    decreases |text|
  {
    if text == [] then k else BusyAfter(text[1..], Sub(AfterByte(k), Tail(p)), p)
  }

  /** The matcher from any state. */
  function MatchFrom(cmd: nat, bs: seq<byte>): nat
    decreases |bs|
  {
    if bs == [] then cmd else MatchFrom(Match(cmd, bs[0]), bs[1..])
  }

  lemma {:induction false} MatchFromSnoc(cmd: nat, bs: seq<byte>, b: byte)
    ensures MatchFrom(cmd, bs + [b]) == Match(MatchFrom(cmd, bs), b)
    decreases |bs|
  {
    hide Match;
    if bs == [] {
      assert ([] + [b])[1..] == [];
    } else {
      assert (bs + [b])[1..] == bs[1..] + [b];
      MatchFromSnoc(Match(cmd, bs[0]), bs[1..], b);
    }
  }

  lemma {:induction false} MatchFromRest(bs: seq<byte>)
    ensures MatchFrom(0, bs) == MatchAll(bs)
    decreases |bs|
  {
    hide Match;
    if bs != [] {
      var k := |bs| - 1;
      MatchFromRest(bs[..k]);
      assert bs == bs[..k] + [bs[k]];
      MatchFromSnoc(0, bs[..k], bs[k]);
    }
  }

  predicate Plain(text: seq<octet>) { forall i :: 0 <= i < |text| ==> !LineEnd(ValueOf(text[i])) }

  function Values(os: seq<octet>): (bs: seq<byte>)
    ensures |bs| == |os| && forall i :: 0 <= i < |os| ==> bs[i] == ValueOf(os[i])
  {
    seq(|os|, i requires 0 <= i < |os| => ValueOf(os[i]))
  }

  lemma PlainLoads(c: Console, o: octet)
    requires !LineEnd(ValueOf(o))
    ensures Loads(c, Some(o)) == []
  {
  }

  lemma LineHead(text: seq<octet>, p: nat)
    requires text != []
    ensures BackToBack(text, p)[0] == Sending(text[0], p) && BackToBack(text, p)[1..] == BackToBack(text[1..], p)
    ensures Line(p, BackToBack(text, p)) == Frame(text[0], p, p) + Line(p, BackToBack(text[1..], p))
    ensures Values(text)[1..] == Values(text[1..])
  {
    hide Frame, ValueOf;
    assert BackToBack(text, p)[1..] == BackToBack(text[1..], p);
  }

  /** Text without line ends, typed back to back at an accepted rate: all is received, what completes in time is echoed,
      nothing is loaded, and the matcher has read it. */
  lemma {:induction false} TextRun(c: Console, text: seq<octet>, p: nat, k: nat)
    requires Armed(c.rx) && At(c, k) && c.remain == 0 && InTime(p, p) && Plain(text)
    ensures var (d, log) := Run(c, Line(p, BackToBack(text, p)));
      && Armed(d.rx) && At(d, BusyAfter(text, k, p)) && d.remain == 0
      && log == Log(text, EchoedOf(text, k, p), AsEchoes(EchoedOf(text, k, p)), [])
      && d.cmd == MatchFrom(c.cmd, Values(text))
    decreases |text|
  {
    hide RxStep, Step, Cycle, At, RxRun, Match, ValueOf, Loads, HeardIf, AfterByte, Frame, Gathered, InTime, Run;
    IsAt(c, k);
    if text == [] {
      assert Line(p, BackToBack(text, p)) == [];
      RunNothing(c);
      assert AsEchoes([]) == [];
    } else {
      var o := text[0];
      LineHead(text, p);
      PlainLoads(c, o);
      TimeLength(p);
      FrameRun(c, o, p, p, k);
      var (d, log) := Run(c, Frame(o, p, p));
      IsAt(d, Sub(AfterByte(k), Tail(p)));
      TextRun(d, text[1..], p, Sub(AfterByte(k), Tail(p)));
      RunAppend(c, Frame(o, p, p), Line(p, BackToBack(text[1..], p)));
      assert [o] + text[1..] == text;
      EchoesJoin(HeardIf(o, k), EchoedOf(text[1..], Sub(AfterByte(k), Tail(p)), p));
    }
  }

  lemma RunNothing(c: Console)
    requires Valid(c)
    ensures Run(c, []) == (c, NOTHING)
  {
  }

  lemma TimeLength(p: nat)
    requires InTime(p, p)
    ensures 9 * p + p == 10 * p >= FRAME && Tail(p) == 9 * p + p - FRAME
  {
  }

  lemma EchoesJoin(a: seq<octet>, b: seq<octet>)
    ensures AsEchoes(a) + AsEchoes(b) == AsEchoes(a + b)
  {
  }

  // ---------------------------------------------------------------- every byte, or every second

  /** The first, third, fifth and so on. */
  function Alternate(text: seq<octet>): seq<octet>
    decreases |text|
  {
    if text == [] then [] else [text[0]] + if |text| == 1 then [] else Alternate(text[2..])
  }

  /** With ten cells of 5209 cycles or more between bytes every echo is out before the next byte completes; with less
      the transmitter is still busy then, and free again one byte later. */
  lemma {:induction false} EchoedWhich(text: seq<octet>, k: nat, p: nat)
    requires 4948 <= p <= 5533 && Hears(k)
    ensures EchoedOf(text, k, p) == if p >= 5209 then text else Alternate(text)
    decreases |text|
  {
    if text != [] {
      var k1 := Sub(AfterByte(k), Tail(p));
      if p >= 5209 {
        EchoedWhich(text[1..], k1, p);
        assert [text[0]] + text[1..] == text;
      } else if |text| > 1 {
        var k2 := Sub(AfterByte(k1), Tail(p));
        assert !Hears(k1) && Hears(k2);
        assert text[1..][1..] == text[2..];
        EchoedWhich(text[2..], k2, p);
        assert EchoedOf(text[1..], k1, p) == [] + EchoedOf(text[2..], k2, p);
      } else {
        assert text[1..] == [];
      }
    }
  }

  /** Which bytes of a typed stream are echoed: from reset, text without line ends typed back to back is received whole;
      at 5209 cycles a bit or more every byte is echoed, below that exactly every second one. */
  lemma EchoedStream(text: seq<octet>, p: nat)
    requires Plain(text) && 4948 <= p <= 5533
    ensures var log := Run(RESET, Line(p, BackToBack(text, p))).1;
      && log.got == text
      && log.sent == AsEchoes(if p >= 5209 then text else Alternate(text))
  {
    hide RxStep, Run, RxRun, Line, Plain;
    TextRun(RESET, text, p, 0);
    EchoedWhich(text, 0, p);
  }

  // ---------------------------------------------------------------- a dialogue

  lemma {:induction false} EchoedSnoc(text: seq<octet>, o: octet, k: nat, p: nat)
    ensures EchoedOf(text + [o], k, p) == EchoedOf(text, k, p) + HeardIf(o, BusyAfter(text, k, p))
    decreases |text|
  {
    hide HeardIf, AfterByte;
    if text == [] {
      assert ([] + [o])[1..] == [];
    } else {
      assert (text + [o])[1..] == text[1..] + [o];
      EchoedSnoc(text[1..], o, Sub(AfterByte(k), Tail(p)), p);
    }
  }

  lemma {:induction false} LineSnoc(text: seq<octet>, o: octet, p: nat)
    ensures Line(p, BackToBack(text + [o], p)) == Line(p, BackToBack(text, p)) + Frame(o, p, p)
    decreases |text|
  {
    hide Frame;
    LineHead(text + [o], p);
    if text == [] {
      assert ([] + [o])[1..] == [];
      assert Line(p, BackToBack([], p)) == [];
    } else {
      assert (text + [o])[1..] == text[1..] + [o];
      LineHead(text, p);
      LineSnoc(text[1..], o, p);
    }
  }

  function Ones(n: nat): (s: seq<bit>)
    ensures |s| == n && forall i :: 0 <= i < n ==> s[i] == 1
  {
    seq(n, _ => 1)
  }

  lemma OnesQuiet(s: Rx, a: seq<bit>, n: nat)
    requires RxValid(s) && RxRun(s, a).1 == [] && Armed(RxRun(s, a).0)
    ensures RxRun(s, a + Ones(n)).1 == []
  {
    hide RxStep, RxRun;
    RxRunAppend(s, a, Ones(n));
    StaysIdle(RxRun(s, a).0, Ones(n));
  }

  /** The end of a line: the rest of its frame and silence let the whole answer out. */
  lemma EndRun(c: Console, end: octet, p: nat, k: nat, n: nat)
    requires Armed(c.rx) && At(c, k) && c.remain == 0 && InTime(p, p) && LineEnd(ValueOf(end))
    requires k < BLOCK && n >= 25 * BLOCK
    ensures var (d, log) := Run(c, Frame(end, p, p) + Ones(n));
      && At(d, 0) && d.remain == 0
      && log == Log([end], HeardIf(end, k), AsEchoes(HeardIf(end, k)) + AsAnswers(Response(c.cmd)), Response(c.cmd))
  {
    hide RxStep, Step, Cycle, At, RxRun, Match, ValueOf, HeardIf, Frame, Gathered, InTime, Run, Response;
    IsAt(c, k);
    var line := Frame(end, p, p);
    TimeLength(p);
    FrameRest(c.rx, end, p, p);
    FrameHead(c, line, k, end);
    var a, b := line[..FRAME], line[FRAME..] + Ones(n);
    assert line + Ones(n) == a + b;
    RunAppend(c, a, b);
    RunReceives(c, a);
    var (d, log) := Run(c, a);
    IsAt(d, AfterByte(k));
    OnesQuiet(d.rx, line[FRAME..], n);
    ResponseFits(c.cmd);
    assert Queued(c) == [] && [] + Response(c.cmd) == Response(c.cmd);
    Drains(d, b, AfterByte(k));
  }

  /** Every waiting time is shorter than a block. */
  lemma {:induction false} BusyBounded(text: seq<octet>, k: nat, p: nat)
    requires k < BLOCK
    ensures BusyAfter(text, k, p) < BLOCK
    decreases |text|
  {
    if text != [] {
      BusyBounded(text[1..], Sub(AfterByte(k), Tail(p)), p);
    }
  }

  /** What a typed line has sent back: its echoes, then the whole answer. */
  function Back(text: seq<octet>, end: octet, p: nat): seq<Source> {
    var line := text + [end];
    AsEchoes(if p >= 5209 then line else Alternate(line)) + AsAnswers(Answer(Values(text)))
  }

  /** A typed line gets its answer: from reset, any text without line ends typed back to back at any accepted rate,
      closed by a carriage return or line feed and followed by silence of 25 blocks, is received whole; what a
      receiver on the console's line gets is its echoes, every one from 5209 cycles a bit on and every second one
      below, and then the whole answer; and nothing is left queued. */
  lemma TypedLine(text: seq<octet>, end: octet, p: nat, n: nat)
    requires Plain(text) && LineEnd(ValueOf(end)) && 4948 <= p <= 5533 && n >= 25 * BLOCK
    ensures var pins := Line(p, BackToBack(text + [end], p)) + Ones(n);
      var (c, log) := Run(RESET, pins);
      && log.got == text + [end] && log.loaded == Answer(Values(text))
      && log.sent == Back(text, end, p) && Queued(c) == [] && !c.tx.active
      && RxRun(RX_RESET, Output(RESET, pins)).1 == Octets(Back(text, end, p))
  {
    hide RxStep, Run, RxRun, Line, Plain, Frame, Answer, At, ValueOf, Output, Octets, EchoedOf, HeardIf, BusyAfter,
         AsEchoes, AsAnswers, MatchAll, Response, Values, Valid, Queued;
    var line := Line(p, BackToBack(text, p));
    var last := Frame(end, p, p) + Ones(n);
    var k := BusyAfter(text, 0, p);
    TextStarts();
    TextRun(RESET, text, p, 0);
    BusyBounded(text, 0, p);
    var (c, log) := Run(RESET, line);
    EndRun(c, end, p, k, n);
    var (d, more) := Run(c, last);
    LineSnoc(text, end, p);
    RunAppend(RESET, line, last);
    assert line + last == Line(p, BackToBack(text + [end], p)) + Ones(n);
    MatchFromRest(Values(text));
    AnswerIsResponse(Values(text));
    EchoedSnoc(text, end, 0, p);
    EchoedWhich(text + [end], 0, p);
    EchoesJoin(EchoedOf(text, 0, p), HeardIf(end, k));
    IdleAt(d);
    var r := AsAnswers(Answer(Values(text)));
    assert AsEchoes(EchoedOf(text, 0, p)) + (AsEchoes(HeardIf(end, k)) + r)
        == AsEchoes(EchoedOf(text + [end], 0, p)) + r;
    OutputReceived(line + last);
  }

  lemma TextStarts()
    ensures Armed(RESET.rx) && At(RESET, 0) && RESET.remain == 0 && RESET.cmd == 0
  {
  }

  lemma IdleAt(c: Console)
    requires At(c, 0)
    ensures Valid(c) && !c.tx.active && InFlight(c.tx) == [] && (c.remain == 0 ==> Queued(c) == [])
  {
  }

  // ---------------------------------------------------------------- starvation

  /** Cells of 5208 cycles and a stop cell of 5209: bytes complete every 52081 cycles, just as the transmitter is
      done. */
  const SLOW_STOP: nat := BLOCK - 9 * CELL

  function Paced(data: seq<octet>): (bs: seq<Sending>)
    ensures |bs| == |data| && forall i :: 0 <= i < |bs| ==> bs[i] == Sending(data[i], SLOW_STOP)
  {
    seq(|data|, i requires 0 <= i < |data| => Sending(data[i], SLOW_STOP))
  }

  lemma PacedHead(data: seq<octet>)
    requires data != []
    ensures Line(CELL, Paced(data)) == Frame(data[0], CELL, SLOW_STOP) + Line(CELL, Paced(data[1..]))
  {
    hide Frame;
    assert Paced(data)[1..] == Paced(data[1..]);
  }

  lemma FullLoads(c: Console, o: octet)
    requires c.remain > 0
    ensures Loads(c, Some(o)) == []
  {
  }

  lemma PacedTimes()
    ensures InTime(CELL, SLOW_STOP) && 9 * CELL + SLOW_STOP - FRAME == BLOCK - FRAME
    ensures Hears(FRAME - 1) && AfterByte(FRAME - 1) == BLOCK - 1 && Sub(BLOCK - 1, BLOCK - FRAME) == FRAME - 1
  {
  }

  /** Against bytes paced like this a queued response makes no progress, however long it lasts: every one of them
      takes the only idle cycle for its echo. */
  lemma {:induction false} Starves(c: Console, data: seq<octet>)
    requires Armed(c.rx) && At(c, FRAME - 1) && c.remain > 0
    ensures var (d, log) := Run(c, Line(CELL, Paced(data)));
      && Armed(d.rx) && At(d, FRAME - 1) && d.remain == c.remain && Queued(d) == Queued(c)
      && log == Log(data, data, AsEchoes(data), [])
    decreases |data|
  {
    hide RxStep, Step, Cycle, At, RxRun, Match, ValueOf, Loads, AfterByte, Frame, Gathered, InTime, Run;
    IsAt(c, FRAME - 1);
    if data == [] {
      assert Line(CELL, Paced(data)) == [];
      RunNothing(c);
      assert AsEchoes([]) == [];
    } else {
      var o := data[0];
      PacedTimes();
      PacedHead(data);
      FullLoads(c, o);
      FrameRun(c, o, CELL, SLOW_STOP, FRAME - 1);
      var d := Run(c, Frame(o, CELL, SLOW_STOP)).0;
      IsAt(d, FRAME - 1);
      Starves(d, data[1..]);
      RunAppend(c, Frame(o, CELL, SLOW_STOP), Line(CELL, Paced(data[1..])));
      EchoesJoin([o], data[1..]);
      assert [o] + data[1..] == data;
    }
  }

  /** Such runs exist: from reset, a carriage return and then any bytes at this pace; the answer "?" is loaded and never
      begins to leave. */
  lemma AnswerStarves(data: seq<octet>)
    ensures var (c, log) := Run(RESET, Line(CELL, Paced([OctetOf(CR)] + data)));
      && log.loaded == UNKNOWN && Queued(c) == UNKNOWN && Answers(log.sent) == []
      && log.sent == AsEchoes([OctetOf(CR)] + data)
  {
    hide RxStep, RxRun, Frame, Gathered, InTime, Run, At, Queued, AfterByte;
    var o := OctetOf(CR);
    OctetReads(CR);
    TextStarts();
    PacedTimes();
    PacedHead([o] + data);
    assert ([o] + data)[1..] == data;
    FirstLoads(o);
    var (d, log) := Run(RESET, Frame(o, CELL, SLOW_STOP));
    IsAt(d, FRAME - 1);
    Starves(d, data);
    RunAppend(RESET, Frame(o, CELL, SLOW_STOP), Line(CELL, Paced(data)));
    EchoesJoin([o], data);
    NoAnswers([o] + data);
  }

  lemma {:induction false} NoAnswers(data: seq<octet>)
    ensures Answers(AsEchoes(data)) == []
    decreases |data|
  {
    if data != [] {
      var k := |data| - 1;
      assert AsEchoes(data)[..k] == AsEchoes(data[..k]);
      NoAnswers(data[..k]);
    }
  }

  /** The frame of the carriage return. */
  lemma FirstLoads(o: octet)
    requires ValueOf(o) == CR
    ensures var (d, log) := Run(RESET, Frame(o, CELL, SLOW_STOP));
      && Armed(d.rx) && At(d, FRAME - 1) && d.remain > 0 && Queued(d) == UNKNOWN
      && log == Log([o], [o], AsEchoes([o]), UNKNOWN)
  {
    hide RxStep, Step, Cycle, At, RxRun, Match, ValueOf, Frame, Gathered, InTime, Run;
    TextStarts();
    PacedTimes();
    var line := Frame(o, CELL, SLOW_STOP);
    FrameRest(RESET.rx, o, CELL, SLOW_STOP);
    FrameHead(RESET, line, 0, o);
    var a, b := line[..FRAME], line[FRAME..];
    assert line == a + b;
    RunAppend(RESET, a, b);
    RunReceives(RESET, a);
    var (d, log) := Run(RESET, a);
    IsAt(d, BLOCK - 1);
    assert Queued(RESET) == [] && [] + UNKNOWN == UNKNOWN;
    QuietBusy(d, b, BLOCK - 1);
    RunReceives(d, b);
    IsAt(Run(d, b).0, FRAME - 1);
    JoinAssociates(log, NOTHING, NOTHING);
  }
}
