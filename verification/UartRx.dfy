/** What the receiver makes of a line: which bit periods it takes back to back, and which it does not. */
module UartRx {
  import opened Bytes
  import opened Uart

  // ---------------------------------------------------------------- runs of the receiver

  /** The receiver after a stretch of line, and the bytes it completed. */
  function RxRun(s: Rx, line: seq<bit>): (r: (Rx, seq<octet>))
    requires RxValid(s)
    ensures RxValid(r.0)
    decreases |line|
  {
    if line == [] then (s, [])
    else
      var (u, got) := RxRun(s, line[..|line| - 1]);
      var (v, out) := RxStep(u, line[|line| - 1]);
      (v, if out.Some? then got + [out.value] else got)
  }

  lemma {:induction false} RxRunAppend(s: Rx, a: seq<bit>, b: seq<bit>)
    requires RxValid(s)
    ensures var (u, got) := RxRun(s, a);
      RxRun(s, a + b) == (RxRun(u, b).0, got + RxRun(u, b).1)
    decreases |b|
  {
    hide RxStep;
    if b == [] {
      assert a + b == a && RxRun(s, a).1 + [] == RxRun(s, a).1;
    } else {
      var k := |b| - 1;
      assert (a + b)[..|a + b| - 1] == a + b[..k];
      RxRunAppend(s, a, b[..k]);
      assert (a + b)[|a + b| - 1] == b[k];
      var (u, got) := RxRun(s, a);
      var (v, more) := RxRun(u, b[..k]);
      var out := RxStep(v, b[k]).1;
      if out.Some? {
        assert (got + more) + [out.value] == got + (more + [out.value]);
      }
    }
  }

  /** Idle with the line high: the next low cycle is a start edge. */
  predicate Armed(s: Rx) { RxValid(s) && !s.active && s.sync % 2 == 1 }

  /** Cycles from a start edge to the end of a frame, and to the next cycle that may be an edge. */
  const FRAME: nat := 9 * CELL + BPS_HALF + 2

  /** Middle of cell k, counted from the start edge. */
  function Middle(k: nat): nat { k * CELL + BPS_HALF + 1 }

  /** How many cells have been sampled in the first n cycles. */
  function Sampled(n: nat): nat { (n + BPS_HALF) / CELL }

  /** The data register after m samples: cell 0 is the start bit. */
  function Gathered(line: seq<bit>, m: nat): octet
    requires m <= 9 && (m >= 1 ==> Middle(m - 1) < |line|)
  {
    var v := i requires 0 <= i < 8 => if i + 1 < m then line[Middle(i + 1)] else 0;
    [v(0), v(1), v(2), v(3), v(4), v(5), v(6), v(7)]
  }

  predicate Falls(line: seq<bit>, i: nat)
    requires 0 < i < |line|
  {
    line[i - 1] == 1 && line[i] == 0
  }

  /** Inside a frame: n cycles after the start edge the counter, the cell number and the register are functions of n. */
  function Inside(s: Rx, line: seq<bit>, n: nat): Rx
    requires 1 <= n < FRAME && n <= |line|
  {
    MiddlesBefore(n);
    var before: int := if n == 1 then 1 else line[n - 2];
    Rx(2 * before + line[n - 1], true, (n - 1) % CELL, Sampled(n), Gathered(line, Sampled(n)))
  }

  lemma MiddlesBefore(n: nat)
    requires n < FRAME
    ensures Sampled(n) <= 9
    ensures Sampled(n) >= 1 ==> Middle(Sampled(n) - 1) < n
    ensures n <= Middle(Sampled(n))
  {
  }

  lemma Split(x: nat, q: int, r: nat)
    requires x == q * CELL + r && r < CELL
    ensures x / CELL == q && x % CELL == r
  {
  }

  lemma CellPhase(n: nat)
    requires 1 <= n
    ensures (n - 1) % CELL <= BPS_DIV
    ensures (n - 1) % CELL == BPS_HALF <==> n == Middle(Sampled(n))
    ensures n % CELL == Advance((n - 1) % CELL)
    ensures Sampled(n + 1) == if n == Middle(Sampled(n)) then Sampled(n) + 1 else Sampled(n)
  {
    var q, r := (n - 1) / CELL, (n - 1) % CELL;
    if r == BPS_DIV {
      Split(n, q + 1, 0);
    } else {
      Split(n, q, r + 1);
    }
    if r < BPS_HALF {
      Split(n + BPS_HALF, q, r + BPS_HALF + 1);
      Split(n + 1 + BPS_HALF, q, r + BPS_HALF + 2);
    } else if r == BPS_HALF {
      Split(n + BPS_HALF, q, BPS_DIV);
      Split(n + 1 + BPS_HALF, q + 1, 0);
    } else {
      Split(n + BPS_HALF, q + 1, r - BPS_HALF - 1);
      Split(n + 1 + BPS_HALF, q + 1, r - BPS_HALF);
    }
  }

  lemma GatherOne(line: seq<bit>, m: nat)
    requires m <= 8 && Middle(m) < |line|
    ensures Gathered(line, m + 1)
         == if m == 0 then Gathered(line, 0) else OrBit(Gathered(line, m), m - 1, line[Middle(m)])
  {
  }

  lemma {:induction false} InFrame(s: Rx, line: seq<bit>, n: nat)
    requires Armed(s) && 1 <= n < FRAME && n <= |line| && line[0] == 0
    ensures RxRun(s, line[..n]) == (Inside(s, line, n), [])
    decreases n
  {
    hide Gathered, Middle, Sampled, OrBit;
    assert line[..n][..n - 1] == line[..n - 1];
    if n == 1 {
      EdgeStarts(s, line);
    } else {
      InFrame(s, line, n - 1);
      InsideStep(s, line, n - 1);
    }
  }

  lemma EdgeStarts(s: Rx, line: seq<bit>)
    requires Armed(s) && 1 <= |line| && line[0] == 0
    ensures RxRun(s, line[..1]) == (Inside(s, line, 1), [])
  {
    assert line[..1][..0] == [];
    assert RxRun(s, line[..1][..0]) == (s, []);
    assert Sampled(1) == 0;
  }

  lemma InsideStep(s: Rx, line: seq<bit>, n: nat)
    requires 1 <= n < FRAME && n + 1 < FRAME && n < |line|
    ensures RxValid(Inside(s, line, n))
    ensures RxStep(Inside(s, line, n), line[n]) == (Inside(s, line, n + 1), None)
  {
    hide Gathered, Middle, Sampled, OrBit;
    MiddlesBefore(n);
    MiddlesBefore(n + 1);
    CellPhase(n);
    if n == Middle(Sampled(n)) {
      GatherOne(line, Sampled(n));
    }
  }

  lemma LastMiddle()
    ensures Sampled(FRAME - 1) == 9 && (FRAME - 2) % CELL == BPS_HALF && Middle(8) < FRAME - 1
  {
  }

  /** The middle of the stop bit ends the frame, whatever the pin reads there. */
  lemma FrameEnds(s: Rx, line: seq<bit>)
    requires Armed(s) && FRAME <= |line| && line[0] == 0
    ensures var (t, got) := RxRun(s, line[..FRAME]);
      !t.active && t.sync % 2 == line[FRAME - 1] && got == [Gathered(line, 9)]
  {
    hide Gathered, OrBit, Sampled, Middle;
    assert line[..FRAME][..FRAME - 1] == line[..FRAME - 1];
    InFrame(s, line, FRAME - 1);
    LastMiddle();
  }

  /** Outside a frame nothing happens while the line does not fall. */
  lemma {:induction false} StaysIdle(s: Rx, line: seq<bit>)
    requires RxValid(s) && !s.active
    requires line != [] && s.sync % 2 == 1 ==> line[0] == 1
    requires forall i :: 0 < i < |line| ==> !Falls(line, i)
    ensures var (t, got) := RxRun(s, line);
      !t.active && got == [] && t.sync % 2 == (if line == [] then s.sync % 2 else line[|line| - 1])
    decreases |line|
  {
    if line != [] {
      var k := |line| - 1;
      forall i | 0 < i < k ensures !Falls(line[..k], i) {
        assert !Falls(line, i);
      }
      StaysIdle(s, line[..k]);
      if k > 0 {
        assert !Falls(line, k);
      }
    }
  }

  // ---------------------------------------------------------------- frames on a line

  /** Cycle i of a frame with bit period p: start, eight data bits, then the line is high. */
  function FrameBit(o: octet, p: nat, i: nat): bit {
    if i < p then 0 else if i < 2 * p then o[0] else if i < 3 * p then o[1] else if i < 4 * p then o[2]
    else if i < 5 * p then o[3] else if i < 6 * p then o[4] else if i < 7 * p then o[5] else if i < 8 * p then o[6]
    else if i < 9 * p then o[7] else 1
  }

  /** A frame with bit period p whose stop bit, with any pause after it, lasts h cycles. */
  function Frame(o: octet, p: nat, h: nat): (line: seq<bit>)
    ensures |line| == 9 * p + h
  {
    seq(9 * p + h, i requires 0 <= i < 9 * p + h => FrameBit(o, p, i))
  }

  /** The samples fall in their cells, the last data bit is over by then, and the receiver is armed again before the
      next start edge. */
  predicate InTime(p: nat, h: nat) {
    8 * p <= Middle(8) < 9 * p && 9 * p + h >= FRAME && h > 0
  }

  lemma FrameGathers(o: octet, p: nat, h: nat)
    requires InTime(p, h)
    ensures Gathered(Frame(o, p, h), 9) == o
  {
    var line := Frame(o, p, h);
    assert line[Middle(1)] == o[0] && line[Middle(2)] == o[1] && line[Middle(3)] == o[2] && line[Middle(4)] == o[3];
    assert line[Middle(5)] == o[4] && line[Middle(6)] == o[5] && line[Middle(7)] == o[6] && line[Middle(8)] == o[7];
  }

  /** A frame in time is received as its byte and leaves the receiver armed. */
  lemma FrameReceived(s: Rx, o: octet, p: nat, h: nat)
    requires Armed(s) && InTime(p, h)
    ensures var (t, got) := RxRun(s, Frame(o, p, h)); Armed(t) && got == [o]
  {
    hide Gathered, RxRun, RxStep;
    var line := Frame(o, p, h);
    FrameEnds(s, line);
    FrameGathers(o, p, h);
    var rest := line[FRAME..];
    assert line == line[..FRAME] + rest;
    RxRunAppend(s, line[..FRAME], rest);
    var t := RxRun(s, line[..FRAME]).0;
    forall i | 0 < i < |rest| ensures !Falls(rest, i) {
      assert rest[i - 1] == line[FRAME + i - 1] && rest[i] == line[FRAME + i];
    }
    if rest != [] {
      assert rest[0] == line[FRAME];
    }
    StaysIdle(t, rest);
  }

  // ---------------------------------------------------------------- byte streams

  /** A byte with the length of its stop bit and the pause behind it. */
  datatype Sending = Sending(data: octet, high: nat)

  function Line(p: nat, bs: seq<Sending>): seq<bit> {
    if bs == [] then [] else Frame(bs[0].data, p, bs[0].high) + Line(p, bs[1..])
  }

  function Data(bs: seq<Sending>): seq<octet> {
    if bs == [] then [] else [bs[0].data] + Data(bs[1..])
  }

  /** Any stream of frames in time, with any pauses, is received byte for byte. */
  lemma {:induction false} StreamReceived(s: Rx, p: nat, bs: seq<Sending>)
    requires Armed(s) && forall i :: 0 <= i < |bs| ==> InTime(p, bs[i].high)
    ensures var (t, got) := RxRun(s, Line(p, bs)); Armed(t) && got == Data(bs)
    decreases |bs|
  {
    hide RxStep, Frame, InTime;
    if bs != [] {
      FrameReceived(s, bs[0].data, p, bs[0].high);
      var f := Frame(bs[0].data, p, bs[0].high);
      RxRunAppend(s, f, Line(p, bs[1..]));
      hide RxRun;
      StreamReceived(RxRun(s, f).0, p, bs[1..]);
    }
  }

  /** Bytes back to back: every stop bit one period long. */
  function BackToBack(data: seq<octet>, p: nat): (bs: seq<Sending>)
    ensures |bs| == |data| && forall i :: 0 <= i < |bs| ==> bs[i] == Sending(data[i], p)
  {
    seq(|data|, i requires 0 <= i < |data| => Sending(data[i], p))
  }

  lemma {:induction false} DataBackToBack(data: seq<octet>, p: nat)
    ensures Data(BackToBack(data, p)) == data
    decreases |data|
  {
    if data != [] {
      assert BackToBack(data, p)[1..] == BackToBack(data[1..], p);
      DataBackToBack(data[1..], p);
    }
  }

  function Received(data: seq<octet>, p: nat): seq<octet> { RxRun(RX_RESET, Line(p, BackToBack(data, p))).1 }

  /** Past the start edge and the frame that follows it, a line without a falling edge adds nothing. */
  lemma OneFrame(line: seq<bit>)
    requires |line| >= 1 && line[0] == 0
    requires forall i :: FRAME <= i < |line| ==> !Falls(line, i)
    ensures RxRun(RX_RESET, line).1 == if FRAME <= |line| then [Gathered(line, 9)] else []
  {
    hide Gathered, RxRun, RxStep;
    if FRAME <= |line| {
      FrameEnds(RX_RESET, line);
      var rest := line[FRAME..];
      assert line == line[..FRAME] + rest;
      RxRunAppend(RX_RESET, line[..FRAME], rest);
      var t := RxRun(RX_RESET, line[..FRAME]).0;
      forall i | 0 < i < |rest| ensures !Falls(rest, i) {
        assert !Falls(line, FRAME + i);
      }
      if rest != [] {
        assert !Falls(line, FRAME);
        assert rest[0] == line[FRAME];
      }
      StaysIdle(t, rest);
    } else {
      InFrame(RX_RESET, line, |line|);
      assert line[..|line|] == line;
    }
  }

  const TOP_BIT: octet := [0, 0, 0, 0, 0, 0, 0, 1]
  const ALL_ONES: octet := [1, 1, 1, 1, 1, 1, 1, 1]

  /** Above 5533 cycles a bit the last data bit is sampled before it begins: 0x80 is taken for 0. */
  lemma TooSlow(p: nat)
    requires p > 5533
    ensures Received([TOP_BIT], p) == [CLEAR]
  {
    hide RxRun, RxStep;
    var bs := BackToBack([TOP_BIT], p);
    var line := Frame(TOP_BIT, p, p);
    assert bs[1..] == [] && Line(p, bs[1..]) == [];
    assert Line(p, bs) == line;
    OneFrame(line);
  }

  /** Below 4948 the second start edge passes before the receiver is armed again. */
  lemma TooFast(p: nat)
    requires 0 < p < 4948
    ensures |Received([ALL_ONES, ALL_ONES], p)| <= 1
  {
    hide RxRun, RxStep, Gathered;
    var bs := BackToBack([ALL_ONES, ALL_ONES], p);
    var f := Frame(ALL_ONES, p, p);
    var rest := bs[1..];
    assert rest[0] == Sending(ALL_ONES, p) && rest[1..] == [];
    assert Line(p, rest) == f + Line(p, rest[1..]) == f;
    var line := Line(p, bs);
    assert line == f + f;
    OneFrame(line);
  }

  /** Exactly the bit periods from 4948 to 5533 cycles are received back to back, for all byte strings. */
  lemma ReceivesIff(p: nat)
    requires p > 0
    ensures (forall data :: Received(data, p) == data) <==> 4948 <= p <= 5533
  {
    hide RxRun, RxStep, Received;
    if 4948 <= p <= 5533 {
      forall data ensures Received(data, p) == data {
        InRange(data, p);
      }
    } else if p > 5533 {
      TooSlow(p);
      assert Received([TOP_BIT], p) != [TOP_BIT];
    } else {
      TooFast(p);
      assert Received([ALL_ONES, ALL_ONES], p) != [ALL_ONES, ALL_ONES];
    }
  }

  lemma InRange(data: seq<octet>, p: nat)
    requires 4948 <= p <= 5533
    ensures Received(data, p) == data
  {
    hide RxRun, RxStep, Line;
    StreamReceived(RX_RESET, p, BackToBack(data, p));
    DataBackToBack(data, p);
  }
}
