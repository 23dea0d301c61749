/** What the transmitter puts on its line: whole ten-cell frames, which a receiver on that line takes back. */
module UartTx {
  import opened Bytes
  import opened Uart
  import opened UartRx

  // ---------------------------------------------------------------- runs of the transmitter

  /** Runs of the transmitter, given what it is offered each cycle: its line, and the bytes it took. */
  datatype Sent = Sent(line: seq<bit>, taken: seq<octet>)

  function TxRun(t: Tx, offers: seq<Option<octet>>): (Tx, Sent)
    decreases |offers|
  {
    if offers == [] then (t, Sent([], []))
    else
      var k := |offers| - 1;
      var (u, s) := TxRun(t, offers[..k]);
      var v := TxStep(u, offers[k]);
      (v, Sent(s.line + [v.pin], if !u.active && offers[k].Some? then s.taken + [offers[k].value] else s.taken))
  }

  /** Cycles from taking a byte to being idle again: half a cell, ten cells, half a cell. */
  const BLOCK: nat := 10 * CELL + 1

  /** The pin n cycles into a byte: high until the first drive point, then start, data and stop cells. */
  function PinAt(o: octet, n: nat): bit {
    var k := Sampled(n);
    if k == 0 then 1 else if k == 1 then 0 else if k <= 9 then o[k - 2] else 1
  }

  /** The transmitter n cycles into a byte. */
  function Midway(o: octet, n: nat): Tx
    requires 1 <= n < BLOCK
  {
    Tx(true, (n - 1) % CELL, Sampled(n), o, PinAt(o, n))
  }

  lemma CellOf(n: nat)
    requires 1 <= n < BLOCK
    ensures Sampled(n) <= 10
    ensures n == Middle(Sampled(n)) ==> Sampled(n) <= 9
    ensures (n - 1) % CELL == BPS_DIV && Sampled(n) == 10 <==> n + 1 == BLOCK
  {
    var q, r := (n - 1) / CELL, (n - 1) % CELL;
    if r < BPS_HALF {
      Split(n + BPS_HALF, q, r + BPS_HALF + 1);
    } else if r == BPS_HALF {
      Split(n + BPS_HALF, q, BPS_DIV);
    } else {
      Split(n + BPS_HALF, q + 1, r - BPS_HALF - 1);
    }
  }

  lemma MidwayStep(o: octet, n: nat, next: Option<octet>)
    requires 1 <= n < BLOCK
    ensures TxStep(Midway(o, n), next) == if n + 1 == BLOCK then Tx(false, 0, 10, o, 1) else Midway(o, n + 1)
  {
    hide Sampled, Middle;
    CellPhase(n);
    CellOf(n);
    if n + 1 < BLOCK {
      CellOf(n + 1);
    }
  }

  /** The line of one byte: 2604 high cycles, start cell, eight data cells, stop cell and one more cycle. */
  function Block(o: octet): (line: seq<bit>)
    ensures |line| == BLOCK
  {
    seq(BLOCK, i requires 0 <= i < BLOCK => if i + 1 == BLOCK then 1 else PinAt(o, i + 1))
  }

  lemma {:induction false} InBlock(t: Tx, offers: seq<Option<octet>>, o: octet, n: nat)
    requires !t.active && 1 <= n < BLOCK && n <= |offers| && offers[0] == Some(o)
    ensures TxRun(t, offers[..n]) == (Midway(o, n), Sent(Block(o)[..n], [o]))
    decreases n
  {
    hide Sampled, PinAt;
    assert offers[..n][..n - 1] == offers[..n - 1];
    if n == 1 {
      FirstCycle(t, offers, o);
    } else {
      InBlock(t, offers, o, n - 1);
      MidwayStep(o, n - 1, offers[n - 1]);
      assert Block(o)[..n] == Block(o)[..n - 1] + [PinAt(o, n)];
    }
  }

  lemma FirstCycle(t: Tx, offers: seq<Option<octet>>, o: octet)
    requires !t.active && 1 <= |offers| && offers[0] == Some(o)
    ensures TxRun(t, offers[..1]) == (Midway(o, 1), Sent(Block(o)[..1], [o]))
  {
    StartsHigh(o);
    var one := offers[..1];
    assert one[..0] == [] && TxRun(t, one[..0]) == (t, Sent([], []));
    assert Midway(o, 1) == TxStep(t, one[0]);
    assert TxRun(t, one).1.line == Block(o)[..1];
    assert TxRun(t, one).1.taken == [o];
  }

  /** An 8N1 frame in full cells behind half a cell of high line. */
  function CellBit(o: octet, i: nat): bit {
    if i < BPS_HALF + 1 then 1 else if i < BPS_HALF + 1 + CELL then 0
    else if i < BPS_HALF + 1 + 9 * CELL then o[(i - BPS_HALF - 1) / CELL - 1] else 1
  }

  /** Every byte taken drives its whole block, whatever is offered meanwhile, and leaves the transmitter idle: full
      5208-cycle cells, and start edges at least ten cells apart. */
  lemma BlockShape(t: Tx, offers: seq<Option<octet>>, o: octet)
    requires !t.active && |offers| == BLOCK && offers[0] == Some(o)
    ensures var (u, s) := TxRun(t, offers);
      !u.active && s == Sent(Block(o), [o])
    ensures forall i :: 0 <= i < BLOCK ==> Block(o)[i] == CellBit(o, i)
  {
    var n := BLOCK - 1;
    assert offers[..BLOCK][..n] == offers[..n] && offers[..BLOCK] == offers;
    InBlock(t, offers, o, n);
    MidwayStep(o, n, offers[n]);
    assert Block(o) == Block(o)[..n] + [1];
    forall i | 0 <= i < BLOCK ensures Block(o)[i] == CellBit(o, i) {
    }
  }

  // ---------------------------------------------------------------- transmitter and receiver in lockstep

  /** The receiver's register after m samples of the byte. */
  function Prefix(o: octet, m: nat): octet {
    [if m > 1 then o[0] else 0, if m > 2 then o[1] else 0, if m > 3 then o[2] else 0, if m > 4 then o[3] else 0,
     if m > 5 then o[4] else 0, if m > 6 then o[5] else 0, if m > 7 then o[6] else 0, if m > 8 then o[7] else 0]
  }

  const HALF: nat := BPS_HALF + 1

  /** A receiver on the line, n cycles into a byte. */
  predicate Follows(r: Rx, o: octet, n: nat)
    requires 1 <= n < BLOCK
  {
    && RxValid(r) && r.sync % 2 == PinAt(o, n)
    && if n <= HALF then !r.active
       else r == Rx(r.sync, true, (n - HALF - 1) % CELL, Sampled(n - HALF), Prefix(o, Sampled(n - HALF)))
  }

  ghost predicate Lockstep(t: Tx, r: Rx) {
    if t.active then exists n :: 1 <= n < BLOCK && t == Midway(t.data, n) && Follows(r, t.data, n)
    else Armed(r)
  }

  /** Cell numbers of transmitter and receiver, half a cell apart. */
  lemma HalfBehind(n: nat)
    requires HALF < n < BLOCK
    ensures Sampled(n - HALF) <= 9
    ensures n - HALF == Middle(Sampled(n - HALF)) ==> Sampled(n + 1) == Sampled(n - HALF) + 1
    ensures n - HALF == Middle(9) <==> n + 1 == BLOCK
    ensures n - HALF <= Middle(9)
  {
  }

  lemma FollowStep(r: Rx, o: octet, n: nat)
    requires 1 <= n && n + 1 < BLOCK && Follows(r, o, n)
    ensures var (r', out) := RxStep(r, PinAt(o, n + 1));
      out == None && Follows(r', o, n + 1)
  {
    if n < HALF {
    } else if n == HALF {
    } else {
      FollowInside(r, o, n);
    }
  }

  lemma FollowInside(r: Rx, o: octet, n: nat)
    requires HALF < n && n + 1 < BLOCK && Follows(r, o, n)
    ensures var (r', out) := RxStep(r, PinAt(o, n + 1)); out == None && Follows(r', o, n + 1)
  {
    hide Sampled, Middle;
    var m := n - HALF;
    CellPhase(m);
    HalfBehind(n);
    HalfBehind(n + 1);
  }

  lemma FollowEnd(r: Rx, o: octet)
    requires Follows(r, o, BLOCK - 1)
    ensures var (r', out) := RxStep(r, 1); out == Some(o) && Armed(r')
  {
    var m := BLOCK - 1 - HALF;
    assert Sampled(m) == 9 && (m - 1) % CELL == BPS_HALF;
    assert Prefix(o, 9) == o;
  }

  /** One cycle: the receiver completes a byte exactly when the transmitter finishes it. */
  lemma LockstepStep(t: Tx, r: Rx, next: Option<octet>)
    requires Lockstep(t, r)
    ensures RxValid(r)
    ensures var u := TxStep(t, next);
      var (r', out) := RxStep(r, u.pin);
      && Lockstep(u, r') && (t.active && u.active ==> u.data == t.data)
      && out == if t.active && !u.active then Some(t.data) else None
  {
    hide Sampled, Middle, PinAt, RxStep;
    if t.active {
      var n :| 1 <= n < BLOCK && t == Midway(t.data, n) && Follows(r, t.data, n);
      MidwayStep(t.data, n, next);
      if n + 1 < BLOCK {
        FollowStep(r, t.data, n);
        assert TxStep(t, next) == Midway(t.data, n + 1);
      } else {
        FollowEnd(r, t.data);
      }
    } else {
      StillHigh(r);
      if next.Some? {
        StartsHigh(next.value);
        assert TxStep(t, next) == Midway(next.value, 1);
      }
    }
  }

  lemma StillHigh(r: Rx)
    requires Armed(r)
    ensures var (r', out) := RxStep(r, 1); out == None && Armed(r')
  {
  }

  lemma StartsHigh(o: octet)
    ensures PinAt(o, 1) == 1 && Sampled(1) == 0
  {
  }

  function InFlight(t: Tx): seq<octet> { if t.active then [t.data] else [] }

  /** Looped back, the line gives exactly the bytes taken, in order, but for the one still in flight. */
  lemma {:induction false} Loopback(t: Tx, r: Rx, offers: seq<Option<octet>>)
    requires Lockstep(t, r) && RxValid(r) && !t.active
    ensures var (u, s) := TxRun(t, offers);
      var (r', got) := RxRun(r, s.line);
      Lockstep(u, r') && got + InFlight(u) == s.taken
    decreases |offers|
  {
    hide TxStep, RxStep, Lockstep;
    if offers != [] {
      var k := |offers| - 1;
      Loopback(t, r, offers[..k]);
      var (u, s) := TxRun(t, offers[..k]);
      var (r', got) := RxRun(r, s.line);
      LockstepStep(u, r', offers[k]);
      var v := TxStep(u, offers[k]);
      assert (s.line + [v.pin])[..|s.line|] == s.line;
      OneTaken(u, offers[k]);
    }
  }

  lemma OneTaken(t: Tx, next: Option<octet>)
    ensures var u := TxStep(t, next);
      !t.active ==> InFlight(u) == if next.Some? then [next.value] else []
  {
  }
}
