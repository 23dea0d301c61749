/** The receive side of layer_mac.cpp: a frame parser fed at most one byte per pass, the frame FIFO it fills, and the
    staging of a completed frame into frame_buf by udp_echo. */
module MacRx {
  import opened Bytes
  import opened Layout

  datatype St = Idle | Preamble | Header | Vlan | Payload

  const TPID_VLAN: u16 := 0x8100
  const TPID_QINQ: u16 := 0x88A8

  predicate IsTpid(t: u16) { t == TPID_VLAN || t == TPID_QINQ }

  predicate ForUs(dst: mac) { dst == BOARD_MAC || dst == BROADCAST_MAC }

  type u64 = x: int | 0 <= x < 0x1_0000_0000_0000_0000

  /** The static registers of mac_rx_process. */
  datatype Rx = Rx(st: St, cnt: byte, dstAcc: u64, srcAcc: u64, ethAcc: u16,
                   ethertype: u16, dst: mac, src: mac, wrWord: word, wrByte: nat, nwords: nat, vlanRem: byte)

  /** What a pass reports when it completes a frame. */
  datatype Delivery = Delivery(ethertype: u16, dst: mac, src: mac, nwords: nat)

  const RESET: Rx := Rx(Idle, 0, 0, 0, 0, 0, 0, 0, 0, 0, 0, 0)

  function Shl8(acc: u64, data: byte): u64 {
    LowFits(acc, 7);
    Low(acc, 7) * 0x100 + data
  }

  /** A payload byte shifted into the partial word. */
  function ShiftIn(w: word, data: byte): word {
    LowFits(w, 3);
    Low(w, 3) * 0x100 + data
  }

  lemma ShiftInIs(w: word, data: byte)
    ensures ShiftIn(w, data) == w * 0x100 % 0x1_0000_0000 + data
  {
    LowIsMod(w, 3);
  }

  function Next(cnt: byte): byte { (cnt + 1) % 0x100 }

  /** The partial word of n bytes moved to the top. */
  function Flush(w: word, n: nat): word
    requires 0 < n < 4
  {
    LowFits(w, n);
    if n == 1 then Low(w, 1) * 0x100_0000 else if n == 2 then Low(w, 2) * 0x1_0000 else Low(w, 3) * 0x100
  }

  /** The 48 bits of an accumulator that make an address. */
  function Address(acc: u64): mac {
    LowFits(acc, 6);
    Low(acc, 6)
  }

  function HeaderStep(s: Rx, d: byte): Rx {
    if s.cnt < 6 then s.(dstAcc := Shl8(s.dstAcc, d), cnt := Next(s.cnt))
    else if s.cnt < 12 then s.(srcAcc := Shl8(s.srcAcc, d), cnt := Next(s.cnt))
    else if s.cnt == 12 then s.(ethAcc := U16Of(d, 0), cnt := Next(s.cnt))
    else if s.cnt == 13 then
      var eth := U16Of(Hi(s.ethAcc), d);
      if IsTpid(eth) then s.(ethAcc := eth, st := Vlan, cnt := 0, vlanRem := 2)
      else
        var dst := Address(s.dstAcc);
        s.(ethAcc := eth, dst := dst, src := Address(s.srcAcc), ethertype := eth,
           st := if ForUs(dst) then Payload else Idle, cnt := if ForUs(dst) then 1 else Next(s.cnt))
    else s.(cnt := Next(s.cnt))
  }

  /** A payload byte: the words it pushes and whether it ends the frame. */
  function PayloadStep(s: Rx, b: Beat): (Rx, seq<word>, Option<Delivery>)
    requires s.wrByte < 4 && s.nwords < 1024
  {
    var w := ShiftIn(s.wrWord, b.data);
    var n := s.wrByte + 1;
    if n == 4 then
      var s' := s.(wrWord := 0, wrByte := 0, nwords := (s.nwords + 1) % 1024);
      if b.last then (s'.(st := Idle), [w], Some(Delivery(s.ethertype, s.dst, s.src, s'.nwords)))
      else (s', [w], None)
    else if b.last then
      var s' := s.(wrWord := w, wrByte := n, nwords := (s.nwords + 1) % 1024, st := Idle);
      (s', [Flush(w, n)], Some(Delivery(s.ethertype, s.dst, s.src, s'.nwords)))
    else (s.(wrWord := w, wrByte := n), [], None)
  }

  /** Registers a payload byte may meet. */
  predicate Sane(s: Rx) {
    s.st == Payload ==> s.wrByte < 4 && s.nwords < 1024
  }

  /** mac_rx_process on one byte. */
  function RxStep(s: Rx, b: Beat): (Rx, seq<word>, Option<Delivery>)
    requires Sane(s)
  {
    match s.st
    case Idle =>
      var s0 := s.(cnt := 0, dstAcc := 0, srcAcc := 0, ethAcc := 0, wrWord := 0, wrByte := 0, nwords := 0,
          vlanRem := 0);
      (if b.data == 0x55 then s0.(st := Preamble, cnt := 1) else s0, [], None)
    case Preamble =>
      var n := Next(s.cnt);
      (if b.data == 0xD5 && n >= 8 then s.(st := Header, cnt := 0)
       else if b.data != 0x55 && n < 7 then s.(st := Idle, cnt := n)
       else s.(cnt := n), [], None)
    case Header => (HeaderStep(s, b.data), [], None)
    case Vlan =>
      var r: byte := (s.vlanRem + 0xFF) % 0x100;
      (if r == 0 then s.(vlanRem := 0, st := Header, cnt := 12, ethAcc := 0) else s.(vlanRem := r), [], None)
    case Payload => PayloadStep(s, b)
  }

  /** The frame FIFO. */
  class Fifo {
    var words: seq<word>

    constructor ()
      ensures words == []
    {
      words := [];
    }

    method Write(w: word)
      modifies this
      ensures words == old(words) + [w]
    {
      words := words + [w];
    }

    method Read() returns (w: word)
      requires words != []
      modifies this
      ensures w == old(words)[0] && words == old(words)[1..]
    {
      w := words[0];
      words := words[1..];
    }
  }

  class Parser {
    var st: St
    var cnt: byte
    var dstAcc: u64
    var srcAcc: u64
    var ethAcc: u16
    var ethertype: u16
    var dst: mac
    var src: mac
    var wrWord: word
    var wrByte: nat
    var nwords: nat
    var vlanRem: byte

    ghost function State(): Rx
      reads this
    {
      Rx(st, cnt, dstAcc, srcAcc, ethAcc, ethertype, dst, src, wrWord, wrByte, nwords, vlanRem)
    }

    constructor ()
      ensures State() == RESET
    {
      st, cnt, dstAcc, srcAcc, ethAcc := Idle, 0, 0, 0, 0;
      ethertype, dst, src := 0, 0, 0;
      wrWord, wrByte, nwords, vlanRem := 0, 0, 0, 0;
    }

    method Reset()
      modifies this
      ensures State() == RESET
    {
      st, cnt, dstAcc, srcAcc, ethAcc := Idle, 0, 0, 0, 0;
      ethertype, dst, src := 0, 0, 0;
      wrWord, wrByte, nwords, vlanRem := 0, 0, 0, 0;
    }

    method IdleByte(data: byte)
      requires st == Idle
      modifies this
      ensures State() == RxStep(old(State()), Beat(data, false)).0
    {
      ClearHeader();
      ClearWriter();
      if data == 0x55 {
        st, cnt := Preamble, 1;
      }
    }

    method ClearHeader()
      modifies this`cnt, this`dstAcc, this`srcAcc, this`ethAcc
      ensures State() == old(State()).(cnt := 0, dstAcc := 0, srcAcc := 0, ethAcc := 0)
    {
      cnt, dstAcc, srcAcc, ethAcc := 0, 0, 0, 0;
    }

    method ClearWriter()
      modifies this`wrWord, this`wrByte, this`nwords, this`vlanRem
      ensures State() == old(State()).(wrWord := 0, wrByte := 0, nwords := 0, vlanRem := 0)
    {
      wrWord, wrByte, nwords, vlanRem := 0, 0, 0, 0;
    }

    method HeaderByte(data: byte)
      requires st == Header
      modifies this
      ensures State() == HeaderStep(old(State()), data)
    {
      if cnt < 6 {
        dstAcc := Shl8(dstAcc, data);
      } else if cnt < 12 {
        srcAcc := Shl8(srcAcc, data);
      } else if cnt == 12 {
        ethAcc := U16Of(data, 0);
      } else if cnt == 13 {
        ethAcc := U16Of(Hi(ethAcc), data);
        if IsTpid(ethAcc) {
          st, cnt, vlanRem := Vlan, 0, 2;
          return;
        }
        LowIsMod(dstAcc, 6);
        LowIsMod(srcAcc, 6);
        dst := dstAcc % 0x1_0000_0000_0000;
        src := srcAcc % 0x1_0000_0000_0000;
        ethertype := ethAcc;
        if ForUs(dst) {
          st, cnt := Payload, 0;
        } else {
          st := Idle;
        }
      }
      cnt := Next(cnt);
    }

    method PayloadByte(b: Beat, fifo: Fifo) returns (rx: Option<Delivery>)
      requires st == Payload && Sane(State())
      modifies this, fifo
      ensures var (s, pushed, out) := PayloadStep(old(State()), b);
        State() == s && fifo.words == old(fifo.words) + pushed && rx == out
    {
      hide ShiftIn, Flush;
      rx := None;
      ShiftInIs(wrWord, b.data);
      wrWord := wrWord * 0x100 % 0x1_0000_0000 + b.data;
      wrByte := wrByte + 1;
      if wrByte == 4 {
        fifo.Write(wrWord);
        nwords := (nwords + 1) % 1024;
        wrByte, wrWord := 0, 0;
      }
      if b.last {
        if wrByte > 0 {
          fifo.Write(Flush(wrWord, wrByte));
          nwords := (nwords + 1) % 1024;
        }
        rx := Some(Delivery(ethertype, dst, src, nwords));
        st := Idle;
      }
    }

    /** mac_rx_process. */
    method Process(resetN: bool, input: Option<Beat>, fifo: Fifo) returns (rx: Option<Delivery>)
      requires Sane(State())
      modifies this, fifo
      ensures if !resetN then State() == RESET && fifo.words == old(fifo.words) && rx == None
        else if input == None then State() == old(State()) && fifo.words == old(fifo.words) && rx == None
        else var (s, pushed, out) := RxStep(old(State()), input.value);
          State() == s && fifo.words == old(fifo.words) + pushed && rx == out
    {
      rx := None;
      if !resetN {
        Reset();
        return;
      }
      if input == None {
        return;
      }
      var b := input.value;
      match st {
        case Idle =>
          IdleByte(b.data);
        case Preamble =>
          cnt := Next(cnt);
          if b.data == 0xD5 && cnt >= 8 {
            st, cnt := Header, 0;
          } else if b.data != 0x55 && cnt < 7 {
            st := Idle;
          }
        case Header =>
          HeaderByte(b.data);
        case Vlan =>
          vlanRem := (vlanRem + 0xFF) % 0x100;
          if vlanRem == 0 {
            st, cnt, ethAcc := Header, 12, 0;
          }
        case Payload =>
          rx := PayloadByte(b, fifo);
      }
    }
  }

  // ---------------------------------------------------------------- staging

  /** Parser, FIFO and staging buffer between passes. */
  datatype Channel = Channel(rx: Rx, fifo: seq<word>, frame: seq<word>)

  /** A completed frame as the layers above find it. */
  datatype Arrival = Arrival(info: Delivery, words: seq<word>)

  function Staged(nw: nat): nat { if nw > FRAME_BUF_WORDS then FRAME_BUF_WORDS else nw }

  /** Registers beside a FIFO of n words: in a payload the words announced so far are all there, before it none is. */
  predicate Covered(s: Rx, n: nat) {
    && Sane(s)
    && (s.st == Payload ==> s.nwords <= n)
    && (s.st == Preamble || s.st == Header || s.st == Vlan ==> s.wrByte == 0 && s.wrWord == 0 && s.nwords == 0)
  }

  lemma StepCovered(s: Rx, b: Beat, n: nat)
    requires Covered(s, n)
    ensures var (s', pushed, out) := RxStep(s, b);
      && Covered(s', n + |pushed|)
      && (out.Some? ==> s'.st == Idle && out.value.nwords <= n + |pushed|)
  {
    match s.st
    case Idle =>
    case Preamble => assert s.st != Payload;
    case Header => assert Covered(HeaderStep(s, b.data), n);
    case Vlan =>
    case Payload => assert (s.nwords + 1) % 1024 <= n + 1;
  }

  /** The reader never waits: a completed frame has at least its announced words in the FIFO. */
  predicate Live(ch: Channel) {
    |ch.frame| == FRAME_BUF_WORDS && Covered(ch.rx, |ch.fifo|)
  }

  /** Moving a frame of nw words out of the FIFO; what does not fit the staging buffer is dropped. */
  function Stage(ch: Channel, info: Delivery): (Channel, Option<Arrival>)
    requires |ch.frame| == FRAME_BUF_WORDS && info.nwords <= |ch.fifo|
  {
    var n := Staged(info.nwords);
    var frame := ch.fifo[..n] + ch.frame[n..];
    (ch.(fifo := ch.fifo[info.nwords..], frame := frame), Some(Arrival(info, frame[..n])))
  }

  /** One pass: parse, and if that completed a frame, move it to the staging buffer. */
  function Pass(ch: Channel, resetN: bool, input: Option<Beat>): (r: (Channel, Option<Arrival>))
    requires Live(ch)
    ensures Live(r.0)
  {
    if !resetN then (ch.(rx := RESET), None)
    else if input == None then (ch, None)
    else
      StepCovered(ch.rx, input.value, |ch.fifo|);
      var (s, pushed, out) := RxStep(ch.rx, input.value);
      var c := Channel(s, ch.fifo + pushed, ch.frame);
      match out
      case None => (c, None)
      case Some(info) => Stage(c, info)
  }

  class Receiver {
    const parser: Parser
    const fifo: Fifo
    const frameBuf: array<word>

    ghost function State(): Channel
      reads this, parser, fifo, frameBuf
    {
      Channel(parser.State(), fifo.words, frameBuf[..])
    }

    constructor ()
      ensures State().rx == RESET && State().fifo == [] && Live(State())
      ensures fresh(parser) && fresh(fifo) && fresh(frameBuf)
    {
      parser := new Parser();
      fifo := new Fifo();
      frameBuf := new word[FRAME_BUF_WORDS];
    }

    /** Words moved from the FIFO to the staging buffer. */
    method Keep(n: nat)
      requires n <= frameBuf.Length && n <= |fifo.words|
      modifies fifo, frameBuf
      ensures fifo.words == old(fifo.words)[n..] && frameBuf[..] == old(fifo.words)[..n] + old(frameBuf[..])[n..]
    {
      for i := 0 to n
        invariant fifo.words == old(fifo.words)[i..]
        invariant forall j :: 0 <= j < frameBuf.Length ==>
          frameBuf[j] == if j < i then old(fifo.words)[j] else old(frameBuf[j])
      {
        frameBuf[i] := fifo.Read();
      }
    }

    /** Words taken from the FIFO and dropped. */
    method Drop(n: nat)
      requires n <= |fifo.words|
      modifies fifo
      ensures fifo.words == old(fifo.words)[n..]
    {
      for i := 0 to n
        invariant fifo.words == old(fifo.words)[i..]
      {
        var _ := fifo.Read();
      }
    }

    /** udp_echo pops the completed frame and keeps what fits. */
    method StageFrame(info: Delivery) returns (a: Option<Arrival>)
      requires frameBuf.Length == FRAME_BUF_WORDS && info.nwords <= |fifo.words|
      modifies fifo, frameBuf
      ensures (State(), a) == Stage(old(State()), info)
    {
      var nw := info.nwords;
      var stage := if nw > FRAME_BUF_WORDS then FRAME_BUF_WORDS else nw;
      Keep(stage);
      Drop(nw - stage);
      a := Some(Arrival(info, frameBuf[..stage]));
    }

    method Receive(resetN: bool, input: Option<Beat>) returns (a: Option<Arrival>)
      requires Live(State())
      modifies parser, fifo, frameBuf
      ensures Live(State()) && (State(), a) == Pass(old(State()), resetN, input)
    {
      hide RxStep;
      a := None;
      if resetN && input.Some? {
        StepCovered(parser.State(), input.value, |fifo.words|);
      }
      var rx := parser.Process(resetN, input, fifo);
      assert frameBuf[..] == old(State()).frame;
      if rx.Some? {
        a := StageFrame(rx.value);
      }
    }
  }
}
