/** The UART console of uart_console.cpp: one call is one clock cycle. A byte is ten cells of 5208 cycles; receiver
    and transmitter each count through their cell and act in its middle. */
module Uart {
  import opened Bytes

  type bit = x: int | 0 <= x < 2

  /** An 8-bit register, least significant bit first. */
  type octet = s: seq<bit> | |s| == 8 witness [0, 0, 0, 0, 0, 0, 0, 0]

  const BPS_DIV: nat := 5207
  const BPS_HALF: nat := 2603
  const CELL: nat := BPS_DIV + 1

  const CLEAR: octet := [0, 0, 0, 0, 0, 0, 0, 0]

  function ValueOf(o: octet): byte {
    var v: seq<int> := o;
    v[0] + 2 * v[1] + 4 * v[2] + 8 * v[3] + 16 * v[4] + 32 * v[5] + 64 * v[6] + 128 * v[7]
  }

  function OctetOf(b: byte): octet {
    [b % 2, b / 2 % 2, b / 4 % 2, b / 8 % 2, b / 16 % 2, b / 32 % 2, b / 64 % 2, b / 128]
  }

  /** Setting bit k by OR. */
  function OrBit(o: octet, k: nat, v: bit): octet
    requires k < 8
  {
    o[k := if v == 1 then 1 else o[k]]
  }

  // ---------------------------------------------------------------- receiver

  /** sync holds the pin of this cycle and of the one before. */
  datatype Rx = Rx(sync: nat, active: bool, cnt: nat, num: nat, data: octet)

  predicate RxValid(s: Rx) { s.sync < 4 && s.cnt <= BPS_DIV && s.num <= 9 }

  function Advance(cnt: nat): nat { if cnt == BPS_DIV then 0 else cnt + 1 }

  /** A cycle inside a frame, the pin reading `now`: the middle of each cell is sampled, that of the stop bit ends
      the frame. */
  function RxTick(s: Rx, now: bit): (Rx, Option<octet>)
    requires RxValid(s)
  {
    var t := s.(cnt := Advance(s.cnt));
    if s.cnt != BPS_HALF then (t, None)
    else if s.num == 9 then (t.(active := false), Some(s.data))
    else (t.(num := s.num + 1, data := if 1 <= s.num then OrBit(s.data, s.num - 1, now) else s.data), None)
  }

  /** One cycle of the receiver; a byte when it reaches the middle of a stop bit. */
  function RxStep(s: Rx, pin: bit): (Rx, Option<octet>)
    requires RxValid(s)
  {
    var t := s.(sync := s.sync * 2 % 4 + pin);
    var now, before := t.sync % 2, t.sync / 2;
    if s.active then RxTick(t, now) else (if before == 1 && now == 0 then Rx(t.sync, true, 0, 0, CLEAR) else t, None)
  }

  // ---------------------------------------------------------------- transmitter

  datatype Tx = Tx(active: bool, cnt: nat, num: nat, data: octet, pin: bit)

  predicate TxValid(t: Tx) { t.cnt <= BPS_DIV && t.num <= 10 }

  /** One cycle of the transmitter; next is what it may take if it is idle. */
  function TxStep(t: Tx, next: Option<octet>): Tx {
    if !t.active then
      if next.Some? then Tx(true, 0, 0, next.value, 1) else t.(pin := 1)
    else
      var drives := t.cnt == BPS_HALF;
      var pin: bit := if !drives then t.pin else if t.num == 0 then 0 else if t.num <= 8 then t.data[t.num - 1] else 1;
      var num := if drives && t.num <= 9 then t.num + 1 else t.num;
      Tx(!(t.cnt == BPS_DIV && num == 10), Advance(t.cnt), num, t.data, pin)
  }

  // ---------------------------------------------------------------- commands

  const CR: byte := 13
  const LF: byte := 10

  function Text(s: string): seq<byte>
    requires forall i :: 0 <= i < |s| ==> s[i] as int < 0x100
  {
    seq(|s|, i requires 0 <= i < |s| => s[i] as int)
  }

  const HELP: seq<byte> := Text("?help ?mac ?ip ?stat\r\n")
  const MAC: seq<byte> := Text("MAC: 00:0A:35:01:FE:C0\r\n")
  const IP: seq<byte> := Text("IP: 192.168.100.2\r\n")
  const STAT: seq<byte> := Text("UART 9600-8N1 @50MHz\r\n")
  const UNKNOWN: seq<byte> := Text("?\r\n")

  function Response(cmd: nat): seq<byte> {
    if cmd == 5 then HELP else if cmd == 13 then MAC else if cmd == 22 then IP else if cmd == 34 then STAT else UNKNOWN
  }

  /** The incremental matcher on a byte other than CR and LF. */
  function Match(cmd: nat, b: byte): nat {
    if cmd == 0 then if b == '?' as int then 1 else 0
    else if cmd == 1 then
      if b == 'h' as int then 2 else if b == 'm' as int then 11 else if b == 'i' as int then 21
      else if b == 's' as int then 31 else 0
    else if cmd == 2 then if b == 'e' as int then 3 else 0
    else if cmd == 3 then if b == 'l' as int then 4 else 0
    else if cmd == 4 then if b == 'p' as int then 5 else 0
    else if cmd == 11 then if b == 'a' as int then 12 else 0
    else if cmd == 12 then if b == 'c' as int then 13 else 0
    else if cmd == 21 then if b == 'p' as int then 22 else 0
    else if cmd == 31 then if b == 't' as int then 32 else 0
    else if cmd == 32 then if b == 'a' as int then 33 else 0
    else if cmd == 33 then if b == 't' as int then 34 else 0
    else 0
  }

  // ---------------------------------------------------------------- the console

  /** resp is the response shift register, its first remain bytes still to be sent. */
  datatype Console = Console(rx: Rx, tx: Tx, hold: octet, pending: bool, resp: seq<byte>, remain: nat, cmd: nat,
      done: bool)

  const RESP_SIZE: nat := 24

  predicate Valid(c: Console) {
    RxValid(c.rx) && TxValid(c.tx) && |c.resp| == RESP_SIZE && c.remain <= RESP_SIZE
  }

  function Padded(r: seq<byte>): (s: seq<byte>)
    requires |r| <= RESP_SIZE
    ensures |s| == RESP_SIZE
  {
    r + seq(RESP_SIZE - |r|, _ => 0)
  }

  lemma ResponseFits(cmd: nat)
    ensures 1 <= |Response(cmd)| <= RESP_SIZE
  {
  }

  /** A completed byte: handed to an idle transmitter, and fed to the matcher. */
  function OnByte(c: Console, o: octet): (r: Console)
    requires Valid(c)
    ensures Valid(r)
  {
    var b := ValueOf(o);
    var d := if c.tx.active then c.(done := true) else c.(hold := o, pending := true, done := true);
    if b == CR || b == LF then
      ResponseFits(c.cmd);
      if c.remain == 0 then d.(resp := Padded(Response(c.cmd)), remain := |Response(c.cmd)|, cmd := 0) else d.(cmd := 0)
    else d.(cmd := Match(c.cmd, b))
  }

  /** What an idle transmitter would take: the echo before the response. */
  function Next(c: Console): Option<octet>
    requires Valid(c)
  {
    if c.pending then Some(c.hold) else if c.remain > 0 then Some(OctetOf(c.resp[0])) else None
  }

  function Transmit(c: Console): (r: Console)
    requires Valid(c)
    ensures Valid(r)
  {
    var d := c.(tx := TxStep(c.tx, Next(c)));
    if c.tx.active then d
    else if c.pending then d.(pending := false)
    else if c.remain > 0 then d.(resp := c.resp[1..] + [0], remain := c.remain - 1)
    else d
  }

  /** The receiver's part of a cycle. */
  function Receive(c: Console, pin: bit): (r: Console)
    requires Valid(c)
    ensures Valid(r)
  {
    var (rx, out) := RxStep(c.rx, pin);
    var d := c.(rx := rx, done := false);
    if out.Some? then OnByte(d, out.value) else d
  }

  /** One clock cycle with reset released. */
  function Step(c: Console, pin: bit): (r: Console)
    requires Valid(c)
    ensures Valid(r)
  {
    Transmit(Receive(c, pin))
  }

  const RX_RESET: Rx := Rx(3, false, 0, 0, CLEAR)
  const TX_RESET: Tx := Tx(false, 0, 0, CLEAR, 1)
  const RESET: Console := Console(RX_RESET, TX_RESET, CLEAR, false, seq(RESP_SIZE, _ => 0), 0, 0, false)

  class UartConsole {
    var syncSr: nat
    var rxActive: bool
    var rcnt: nat
    var rnum: nat
    var rxByte: octet
    var txHold: octet
    var txPending: bool
    var txActive: bool
    var tcnt: nat
    var tnum: nat
    var txByte: octet
    var txOut: bit
    var respSr: seq<byte>
    var respRemain: nat
    var cmdSt: nat
    var rxDoneP: bool

    ghost function Value(): Console
      reads this
    {
      Console(Rx(syncSr, rxActive, rcnt, rnum, rxByte), Tx(txActive, tcnt, tnum, txByte, txOut),
              txHold, txPending, respSr, respRemain, cmdSt, rxDoneP)
    }

    constructor ()
      ensures Value() == RESET && Valid(Value())
    {
      syncSr, rxActive, rcnt, rnum, rxByte := 3, false, 0, 0, CLEAR;
      txHold, txPending := CLEAR, false;
      txActive, tcnt, tnum, txByte, txOut := false, 0, 0, CLEAR, 1;
      respSr, respRemain, cmdSt, rxDoneP := seq(RESP_SIZE, _ => 0), 0, 0, false;
    }

    /** uart_console: the pins after one clock cycle. */
    method Cycle(rstN: bool, rx: bit) returns (tx: bit, rxDone: bool, respActive: bool)
      requires Valid(Value())
      modifies this
      ensures Valid(Value())
      ensures Value() == (if rstN then Step(old(Value()), rx) else RESET)
      ensures tx == Value().tx.pin
      ensures rstN ==> rxDone == old(Value()).done && respActive == (old(Value()).remain > 0)
      ensures !rstN ==> !rxDone && !respActive
    {
      hide Receive, Transmit;
      if !rstN {
        Reset();
        return 1, false, false;
      }
      rxDone, respActive := rxDoneP, respRemain > 0;
      RunReceiver(rx);
      RunTransmitter();
      tx := txOut;
    }

    /** The reset branch. */
    method Reset()
      modifies this
      ensures Value() == RESET && Valid(Value())
    {
      ResetReceiver();
      ResetTransmitter();
      ResetQueue();
      txHold, txPending, rxDoneP := CLEAR, false, false;
    }

    method ResetReceiver()
      modifies this`syncSr, this`rxActive, this`rcnt, this`rnum, this`rxByte
      ensures Value() == old(Value()).(rx := RX_RESET)
    {
      syncSr, rxActive, rcnt, rnum, rxByte := 3, false, 0, 0, CLEAR;
    }

    method ResetTransmitter()
      modifies this`txActive, this`tcnt, this`tnum, this`txByte, this`txOut
      ensures Value() == old(Value()).(tx := TX_RESET)
    {
      txActive, tcnt, tnum, txByte, txOut := false, 0, 0, CLEAR, 1;
    }

    method ResetQueue()
      modifies this`respSr, this`respRemain, this`cmdSt
      ensures Value() == old(Value()).(resp := seq(RESP_SIZE, _ => 0), remain := 0, cmd := 0)
    {
      respSr, respRemain, cmdSt := seq(RESP_SIZE, _ => 0), 0, 0;
    }

    method RunReceiver(rx: bit)
      requires Valid(Value())
      modifies this
      ensures Valid(Value()) && Value() == Receive(old(Value()), rx)
    {
      hide OnByte;
      rxDoneP := false;
      var done := Sample(rx);
      if done {
        Complete();
      }
    }

    /** Synchronizer, start-bit detection and mid-bit sampling; true when a stop bit was reached. */
    method Sample(rx: bit) returns (done: bool)
      requires Valid(Value())
      modifies this`syncSr, this`rxActive, this`rxByte, this`rcnt, this`rnum
      ensures var (s, out) := RxStep(old(Value()).rx, rx);
        Value() == old(Value()).(rx := s) && done == out.Some? && (done ==> out == Some(rxByte))
    {
      hide RxTick;
      done := false;
      syncSr := syncSr * 2 % 4 + rx;
      var prev1, prev2 := syncSr % 2, syncSr / 2;
      if !rxActive {
        if prev2 == 1 && prev1 == 0 {
          StartBit();
        }
      } else {
        done := Tick(prev1);
      }
    }

    method Tick(prev1: bit) returns (done: bool)
      requires Valid(Value())
      modifies this`rxActive, this`rxByte, this`rcnt, this`rnum
      ensures var (s, out) := RxTick(old(Value()).rx, prev1);
        Value() == old(Value()).(rx := s) && done == out.Some? && (done ==> out == Some(rxByte))
    {
      done := false;
      if rcnt == BPS_HALF {
        if 1 <= rnum <= 8 {
          rxByte := OrBit(rxByte, rnum - 1, prev1);
        }
        if rnum == 9 {
          rxActive, done := false, true;
        } else {
          rnum := rnum + 1;
        }
      }
      rcnt := if rcnt == BPS_DIV then 0 else rcnt + 1;
    }

    method StartBit()
      modifies this`rxActive, this`rxByte, this`rcnt, this`rnum
      ensures Value() == old(Value()).(rx := Rx(syncSr, true, 0, 0, CLEAR))
    {
      rxActive, rxByte, rcnt, rnum := true, CLEAR, 0, 0;
    }

    /** A frame is complete: echo hand-off and command matching. */
    method Complete()
      requires Valid(Value())
      modifies this
      ensures Valid(Value()) && Value() == OnByte(old(Value()), old(rxByte))
    {
      hide ValueOf, Match, Response;
      rxDoneP := true;
      if !txActive {
        txHold, txPending := rxByte, true;
      }
      Command(ValueOf(rxByte));
    }

    /** The incremental matcher; a line end loads a response only into an empty queue. */
    method Command(b: byte)
      requires Valid(Value())
      modifies this`respSr, this`respRemain, this`cmdSt
      ensures var c := old(Value());
        Value() == if b != CR && b != LF then c.(cmd := Match(c.cmd, b))
          else (ResponseFits(c.cmd);
                if c.remain == 0 then c.(resp := Padded(Response(c.cmd)), remain := |Response(c.cmd)|, cmd := 0)
                else c.(cmd := 0))
    {
      hide Match, Response;
      if b == CR || b == LF {
        ResponseFits(cmdSt);
        if respRemain == 0 {
          respSr, respRemain := Padded(Response(cmdSt)), |Response(cmdSt)|;
        }
        cmdSt := 0;
      } else {
        cmdSt := Match(cmdSt, b);
      }
    }

    method RunTransmitter()
      requires Valid(Value())
      modifies this
      ensures Valid(Value()) && Value() == Transmit(old(Value()))
    {
      if !txActive {
        Take();
      } else {
        Shift();
      }
    }

    /** An idle transmitter takes the echo, else the next byte of the response. */
    method Take()
      requires Valid(Value()) && !txActive
      modifies this
      ensures Value() == Transmit(old(Value()))
    {
      hide OctetOf;
      if txPending {
        txPending := false;
        Start(txHold);
      } else if respRemain > 0 {
        var b := OctetOf(respSr[0]);
        respSr, respRemain := respSr[1..] + [0], respRemain - 1;
        Start(b);
      } else {
        txOut := 1;
      }
    }

    method Start(b: octet)
      modifies this`txActive, this`tcnt, this`tnum, this`txByte, this`txOut
      ensures Value() == old(Value()).(tx := Tx(true, 0, 0, b, 1))
    {
      txOut, txActive, txByte, tcnt, tnum := 1, true, b, 0, 0;
    }

    /** A cycle inside a byte. */
    method Shift()
      requires Valid(Value()) && txActive
      modifies this`txActive, this`tcnt, this`tnum, this`txOut
      ensures Value() == Transmit(old(Value()))
    {
      if tcnt == BPS_HALF {
        txOut := if tnum == 0 then 0 else if tnum <= 8 then txByte[tnum - 1] else 1;
        if tnum <= 9 {
          tnum := tnum + 1;
        }
      }
      if tcnt == BPS_DIV {
        tcnt := 0;
        if tnum == 10 {
          txActive := false;
        }
      } else {
        tcnt := tcnt + 1;
      }
    }
  }
}
