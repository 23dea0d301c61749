/** Whole runs of the console: what is typed, what is answered, and that answers leave whole. */
module UartCommands {
  import opened Bytes
  import opened Uart
  import opened UartRx
  import opened UartTx

  // ---------------------------------------------------------------- runs of the console

  /** A byte the transmitter takes: the echo of a received byte, or a byte of a response. */
  datatype Source = Echoed(o: octet) | Answered(b: byte)

  /** What a run did: bytes completed, completed bytes that found the transmitter idle, bytes taken by the transmitter,
      responses loaded. */
  datatype Log = Log(got: seq<octet>, heard: seq<octet>, sent: seq<Source>, loaded: seq<byte>)

  const NOTHING: Log := Log([], [], [], [])

  function Join(a: Log, b: Log): Log { Log(a.got + b.got, a.heard + b.heard, a.sent + b.sent, a.loaded + b.loaded) }

  /** The response a completed byte loads: only a line end, and only into an empty queue. */
  function Loads(c: Console, out: Option<octet>): seq<byte> {
    if out.Some? && LineEnd(ValueOf(out.value)) && c.remain == 0 then Response(c.cmd) else []
  }

  predicate LineEnd(b: byte) { b == CR || b == LF }

  function Completed(c: Console, pin: bit): Option<octet>
    requires Valid(c)
  {
    RxStep(c.rx, pin).1
  }

  /** What the transmitter is offered in a cycle. */
  function Offer(c: Console, pin: bit): Option<octet>
    requires Valid(c)
  {
    Next(Receive(c, pin))
  }

  /** What the transmitter takes in a cycle. */
  function Sends(c: Console, pin: bit): seq<Source>
    requires Valid(c)
  {
    var d := Receive(c, pin);
    if d.tx.active then [] else if d.pending then [Echoed(d.hold)]
    else if d.remain > 0 then [Answered(d.resp[0])] else []
  }

  function One<T>(o: Option<T>): seq<T> { if o.Some? then [o.value] else [] }

  /** What one cycle adds to the log. */
  function Cycle(c: Console, pin: bit): Log
    requires Valid(c)
  {
    var out := Completed(c, pin);
    Log(One(out), if c.tx.active then [] else One(out), Sends(c, pin), Loads(c, out))
  }

  function Run(c: Console, pins: seq<bit>): (r: (Console, Log))
    requires Valid(c)
    ensures Valid(r.0)
    decreases |pins|
  {
    if pins == [] then (c, NOTHING)
    else
      var k := |pins| - 1;
      var (d, log) := Run(c, pins[..k]);
      (Step(d, pins[k]), Join(log, Cycle(d, pins[k])))
  }

  lemma JoinAssociates(a: Log, b: Log, c: Log)
    ensures Join(Join(a, b), c) == Join(a, Join(b, c)) && Join(a, NOTHING) == a && Join(NOTHING, a) == a
  {
  }

  lemma {:induction false} RunAppend(c: Console, a: seq<bit>, b: seq<bit>)
    requires Valid(c)
    ensures var (d, log) := Run(c, a);
      Run(c, a + b) == (Run(d, b).0, Join(log, Run(d, b).1))
    decreases |b|
  {
    hide Step, Cycle, Join;
    var (d, log) := Run(c, a);
    if b == [] {
      assert a + b == a;
      JoinAssociates(log, NOTHING, NOTHING);
    } else {
      var k := |b| - 1;
      RunAppend(c, a, b[..k]);
      assert (a + b)[..|a + b| - 1] == a + b[..k] && (a + b)[|a + b| - 1] == b[k];
      var (e, more) := Run(d, b[..k]);
      JoinAssociates(log, more, Cycle(e, b[k]));
    }
  }

  /** The line the console drives. */
  function Output(c: Console, pins: seq<bit>): seq<bit>
    requires Valid(c)
    decreases |pins|
  {
    if pins == [] then []
    else Output(c, pins[..|pins| - 1]) + [Run(c, pins).0.tx.pin]
  }

  /** The receiver is independent of everything else. */
  lemma {:induction false} RunReceives(c: Console, pins: seq<bit>)
    requires Valid(c)
    ensures Run(c, pins).0.rx == RxRun(c.rx, pins).0 && Run(c, pins).1.got == RxRun(c.rx, pins).1
    decreases |pins|
  {
    hide RxStep, TxStep, OnByte, Transmit, Loads, Offer, Sends;
    if pins != [] {
      var k := |pins| - 1;
      RunReceives(c, pins[..k]);
      StepReceives(Run(c, pins[..k]).0, pins[k]);
    }
  }

  lemma StepReceives(c: Console, pin: bit)
    requires Valid(c)
    ensures Step(c, pin).rx == RxStep(c.rx, pin).0
    ensures Step(c, pin).tx == TxStep(c.tx, Offer(c, pin)) && Receive(c, pin).tx == c.tx
  {
    hide RxStep, TxStep, Response, Match, ValueOf;
  }

  // ---------------------------------------------------------------- what leaves

  function Octets(sent: seq<Source>): seq<octet>
    decreases |sent|
  {
    if sent == [] then []
    else
      var k := |sent| - 1;
      Octets(sent[..k]) + [match sent[k] case Echoed(o) => o case Answered(b) => OctetOf(b)]
  }

  function Echoes(sent: seq<Source>): seq<octet>
    decreases |sent|
  {
    if sent == [] then []
    else
      var k := |sent| - 1;
      Echoes(sent[..k]) + if sent[k].Echoed? then [sent[k].o] else []
  }

  function Answers(sent: seq<Source>): seq<byte>
    decreases |sent|
  {
    if sent == [] then []
    else
      var k := |sent| - 1;
      Answers(sent[..k]) + if sent[k].Answered? then [sent[k].b] else []
  }

  /** An octet sent for a byte is read as that byte. */
  lemma OctetReads(b: byte)
    ensures ValueOf(OctetOf(b)) == b
  {
    var x1: nat := b / 2;
    var x2: nat := x1 / 2;
    var x3: nat := x2 / 2;
    var x4: nat := x3 / 2;
    var x5: nat := x4 / 2;
    var x6: nat := x5 / 2;
    var x7: nat := x6 / 2;
    assert b / 4 == x2 && b / 8 == x3 && b / 16 == x4 && b / 32 == x5 && b / 64 == x6 && b / 128 == x7;
    assert x6 == 2 * x7 + x6 % 2 && x5 == 2 * x6 + x5 % 2 && x4 == 2 * x5 + x4 % 2 && x3 == 2 * x4 + x3 % 2;
    assert x2 == 2 * x3 + x2 % 2 && x1 == 2 * x2 + x1 % 2 && b == 2 * x1 + b % 2;
  }

  lemma SentOne(sent: seq<Source>, x: Source)
    ensures Octets(sent + [x]) == Octets(sent) + [match x case Echoed(o) => o case Answered(b) => OctetOf(b)]
    ensures Echoes(sent + [x]) == Echoes(sent) + if x.Echoed? then [x.o] else []
    ensures Answers(sent + [x]) == Answers(sent) + if x.Answered? then [x.b] else []
  {
    assert (sent + [x])[..|sent|] == sent;
  }

  lemma SentMore(sent: seq<Source>, more: seq<Source>)
    requires |more| <= 1
    ensures Octets(sent + more) == Octets(sent) + Octets(more)
    ensures Echoes(sent + more) == Echoes(sent) + Echoes(more)
    ensures Answers(sent + more) == Answers(sent) + Answers(more)
  {
    if more == [] {
      assert sent + more == sent;
    } else {
      assert more == [more[0]] && more[..0] == [] && [] + more == more;
      SentOne(sent, more[0]);
      SentOne([], more[0]);
    }
  }

  function Offers(c: Console, pins: seq<bit>): (s: seq<Option<octet>>)
    requires Valid(c)
    ensures |s| == |pins|
    decreases |pins|
  {
    if pins == [] then []
    else Offers(c, pins[..|pins| - 1]) + [Offer(Run(c, pins[..|pins| - 1]).0, pins[|pins| - 1])]
  }

  lemma OfferSent(c: Console, pin: bit)
    requires Valid(c)
    ensures |Sends(c, pin)| <= 1
    ensures Octets(Sends(c, pin)) == if c.tx.active then [] else One(Offer(c, pin))
  {
    hide RxStep, Response, Match, ValueOf, OctetOf, Transmit;
    StepReceives(c, pin);
    var x := Sends(c, pin);
    if x != [] {
      assert x == [] + [x[0]];
      SentOne([], x[0]);
    }
  }

  /** The console's line is a transmitter's, given what the console offers it. */
  lemma {:induction false} RunTransmits(c: Console, pins: seq<bit>)
    requires Valid(c)
    ensures var (t, s) := TxRun(c.tx, Offers(c, pins));
      t == Run(c, pins).0.tx && s == Sent(Output(c, pins), Octets(Run(c, pins).1.sent))
    decreases |pins|
  {
    hide RxStep, TxStep, OnByte, Transmit, Loads, Offer, Sends, Receive;
    if pins != [] {
      var k := |pins| - 1;
      RunTransmits(c, pins[..k]);
      var (d, log) := Run(c, pins[..k]);
      StepReceives(d, pins[k]);
      OfferSent(d, pins[k]);
      SentMore(log.sent, Sends(d, pins[k]));
      assert Offers(c, pins)[..k] == Offers(c, pins[..k]);
    }
  }

  /** The response bytes still queued. */
  function Queued(c: Console): seq<byte>
    requires Valid(c)
  {
    c.resp[..c.remain]
  }

  lemma StepConserves(c: Console, pin: bit)
    requires Valid(c) && !c.pending
    ensures !Step(c, pin).pending && |Sends(c, pin)| <= 1
    ensures Queued(c) + Loads(c, Completed(c, pin)) == Answers(Sends(c, pin)) + Queued(Step(c, pin))
    ensures Echoes(Sends(c, pin)) == if c.tx.active then [] else One(Completed(c, pin))
  {
    hide Receive, Transmit, Loads, Completed, Octets, Echoes, Answers;
    ReceiveQueues(c, pin);
    TransmitTakes(Receive(c, pin));
    StepReceives(c, pin);
    var x := Sends(c, pin);
    if x == [] {
      NoneSent();
    } else {
      assert x == [] + [x[0]];
      NoneSent();
      SentOne([], x[0]);
    }
  }

  lemma NoneSent()
    ensures Octets([]) == [] && Echoes([]) == [] && Answers([]) == []
  {
  }

  /** The receiver's part of a cycle queues a response and hands over an echo. */
  lemma ReceiveQueues(c: Console, pin: bit)
    requires Valid(c) && !c.pending
    ensures var d := Receive(c, pin);
      && d.tx == c.tx && Queued(d) == Queued(c) + Loads(c, Completed(c, pin))
      && (d.pending <==> Completed(c, pin).Some? && !c.tx.active)
      && (d.pending ==> Completed(c, pin) == Some(d.hold))
  {
    hide RxStep, Response, Match, ValueOf;
    var out := RxStep(c.rx, pin).1;
    if out.Some? {
      ResponseFits(c.cmd);
    }
    assert Queued(c) + [] == Queued(c);
  }

  /** The transmitter's part takes the echo, else the first queued byte. */
  lemma TransmitTakes(d: Console)
    requires Valid(d) && (d.pending ==> !d.tx.active)
    ensures var e := Transmit(d);
      && !e.pending
      && Queued(d) == (if !d.tx.active && !d.pending && d.remain > 0 then [d.resp[0]] else []) + Queued(e)
  {
    hide TxStep, OctetOf;
  }

  /** Whatever arrives, line ends included: the response bytes taken and those still queued are the responses loaded,
      whole and in order; the echoes taken are the bytes that completed while the transmitter was idle; and an echo
      never waits for the next cycle. */
  lemma {:induction false} ResponsesWhole(c: Console, pins: seq<bit>)
    requires Valid(c) && !c.pending
    ensures var (d, log) := Run(c, pins);
      && !d.pending && Queued(c) + log.loaded == Answers(log.sent) + Queued(d)
      && Echoes(log.sent) == log.heard
    decreases |pins|
  {
    hide Step, Loads, Sends, Completed, Offer;
    if pins != [] {
      var k := |pins| - 1;
      ResponsesWhole(c, pins[..k]);
      var (d, log) := Run(c, pins[..k]);
      StepConserves(d, pins[k]);
      var l, x := Loads(d, Completed(d, pins[k])), Sends(d, pins[k]);
      SentMore(log.sent, x);
      Shuffle(Queued(c), log.loaded, l, Answers(log.sent), Queued(d), Answers(x), Queued(Step(d, pins[k])));
    }
  }

  lemma Shuffle(q: seq<byte>, a: seq<byte>, l: seq<byte>, b: seq<byte>, d: seq<byte>, p: seq<byte>, e: seq<byte>)
    requires q + a == b + d && d + l == p + e
    ensures q + (a + l) == (b + p) + e
  {
    assert q + (a + l) == (q + a) + l == b + (d + l) == (b + p) + e;
  }

  /** What another receiver on the console's line gets, whatever comes in: a sequence of echoes and response bytes, but
      for the byte in flight, in which the echoes are the bytes that completed while the transmitter was idle and the
      response bytes, with those still queued, the loaded responses whole and in order. */
  lemma OutputReceived(pins: seq<bit>)
    ensures var (c, log) := Run(RESET, pins);
      && RxRun(RX_RESET, Output(RESET, pins)).1 + InFlight(c.tx) == Octets(log.sent)
      && Echoes(log.sent) == log.heard
      && Answers(log.sent) + Queued(c) == log.loaded
  {
    hide Run, Output, TxRun, RxRun;
    RunTransmits(RESET, pins);
    Loopback(TX_RESET, RX_RESET, Offers(RESET, pins));
    ResponsesWhole(RESET, pins);
    assert Queued(RESET) == [];
    var l := Run(RESET, pins).1.loaded;
    assert [] + l == l;
  }

  /** A completed byte is echoed exactly when the transmitter is idle, in that very cycle and before any response. */
  lemma EchoedIff(c: Console, pin: bit)
    requires Valid(c) && !c.pending && Completed(c, pin).Some?
    ensures Sends(c, pin) == if c.tx.active then [] else [Echoed(Completed(c, pin).value)]
  {
    hide RxStep, Response, Match, ValueOf;
  }

  /** A queued byte leaves in a cycle exactly if the transmitter is idle and no byte completes in that cycle. */
  lemma AnsweredIff(c: Console, pin: bit)
    requires Valid(c) && !c.pending && c.remain > 0
    ensures Sends(c, pin) == [Answered(c.resp[0])] <==> !c.tx.active && Completed(c, pin).None?
  {
    hide RxStep, Response, Match, ValueOf;
  }

  // ---------------------------------------------------------------- the matcher

  /** The matcher over bytes that are no line ends. */
  function MatchAll(bs: seq<byte>): nat
    decreases |bs|
  {
    if bs == [] then 0 else Match(MatchAll(bs[..|bs| - 1]), bs[|bs| - 1])
  }

  /** The matcher's states other than rest, the state each is entered from, and on which byte. */
  predicate Midword(s: nat) { 1 <= s <= 5 || 11 <= s <= 13 || 21 <= s <= 22 || 31 <= s <= 34 }

  function From(s: nat): nat
    requires Midword(s)
  {
    if s == 11 || s == 21 || s == 31 then 1 else s - 1
  }

  function Key(s: nat): byte
    requires Midword(s)
  {
    (if s == 1 then '?' else if s == 2 then 'h' else if s == 3 then 'e' else if s == 4 then 'l' else if s == 5 then 'p'
     else if s == 11 then 'm' else if s == 12 then 'a' else if s == 13 then 'c' else if s == 21 then 'i'
     else if s == 22 then 'p'
     else if s == 31 then 's' else if s == 32 then 't' else if s == 33 then 'a' else 't') as int
  }

  /** What was read to reach a state from rest. */
  function Word(s: nat): seq<byte>
    requires s == 0 || Midword(s)
    decreases s
  {
    if s == 0 then [] else Word(From(s)) + [Key(s)]
  }

  /** bs ends in the word, and the matcher was at rest before it. */
  predicate Ends(bs: seq<byte>, word: seq<byte>) {
    |word| <= |bs| && bs[|bs| - |word|..] == word && MatchAll(bs[..|bs| - |word|]) == 0
  }

  lemma MatchIff(a: nat, b: byte, s: nat)
    requires Midword(s)
    ensures Match(a, b) == s <==> a == From(s) && b == Key(s)
  {
  }

  /** The matcher recognizes a word exactly when the line ends in it and what precedes it leaves the matcher at rest:
      a question mark directly before the word, say, spoils it. */
  lemma {:induction false} RecognizesIff(bs: seq<byte>, s: nat)
    requires Midword(s)
    ensures MatchAll(bs) == s <==> Ends(bs, Word(s))
    decreases s
  {
    hide Match, Key;
    if bs != [] {
      var k := |bs| - 1;
      MatchIff(MatchAll(bs[..k]), bs[k], s);
      if From(s) == 0 {
        assert Word(s) == [Key(s)];
        assert bs[k..] == [bs[k]];
      } else {
        RecognizesIff(bs[..k], From(s));
        EndsMore(bs, Word(From(s)), Key(s));
      }
    }
  }

  lemma EndsMore(bs: seq<byte>, w: seq<byte>, b: byte)
    requires bs != []
    ensures Ends(bs, w + [b]) <==> bs[|bs| - 1] == b && Ends(bs[..|bs| - 1], w)
  {
    var k := |bs| - 1;
    if |w| <= k {
      assert bs[k - |w|..] == bs[..k][k - |w|..] + [bs[k]];
      assert bs[..k][..k - |w|] == bs[..k - |w|];
      if bs[k - |w|..] == w + [b] {
        assert bs[..k][k - |w|..] == (w + [b])[..|w|] == w;
        assert bs[k] == (w + [b])[|w|] == b;
      }
    }
  }

  lemma HelpWord()
    ensures Word(5) == Text("?help")
  {
    assert Word(2) == ['?' as int, 'h' as int];
    assert Word(3) == ['?' as int, 'h' as int, 'e' as int];
    assert Word(4) == ['?' as int, 'h' as int, 'e' as int, 'l' as int];
    assert Word(5) == ['?' as int, 'h' as int, 'e' as int, 'l' as int, 'p' as int];
  }

  lemma MacWord()
    ensures Word(13) == Text("?mac")
  {
    assert Word(11) == ['?' as int, 'm' as int];
    assert Word(12) == ['?' as int, 'm' as int, 'a' as int];
    assert Word(13) == ['?' as int, 'm' as int, 'a' as int, 'c' as int];
  }

  lemma IpWord()
    ensures Word(22) == Text("?ip")
  {
    assert Word(21) == ['?' as int, 'i' as int];
    assert Word(22) == ['?' as int, 'i' as int, 'p' as int];
  }

  lemma StatWord()
    ensures Word(34) == Text("?stat")
  {
    assert Word(31) == ['?' as int, 's' as int];
    assert Word(32) == ['?' as int, 's' as int, 't' as int];
    assert Word(33) == ['?' as int, 's' as int, 't' as int, 'a' as int];
    assert Word(34) == ['?' as int, 's' as int, 't' as int, 'a' as int, 't' as int];
  }

  /** The answer to a line: the command's when the line ends in the command's word after a rest, else "?". */
  function Answer(line: seq<byte>): seq<byte> {
    if Ends(line, Text("?help")) then HELP else if Ends(line, Text("?mac")) then MAC
    else if Ends(line, Text("?ip")) then IP else if Ends(line, Text("?stat")) then STAT else UNKNOWN
  }

  lemma AnswerIsResponse(line: seq<byte>)
    ensures Response(MatchAll(line)) == Answer(line)
  {
    hide MatchAll, Ends, Word, Text;
    HelpWord();
    MacWord();
    IpWord();
    StatWord();
    RecognizesIff(line, 5);
    RecognizesIff(line, 13);
    RecognizesIff(line, 22);
    RecognizesIff(line, 34);
  }
}
