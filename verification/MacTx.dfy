/** The transmit side of layer_mac.cpp: one request register, one frame in flight, one byte per pass. */
module MacTx {
  import opened Bytes
  import opened Layout
  import Crc

  datatype St = Idle | Send55 | SendMac | SendData | SendCrc

  /** The static registers of mac_tx_process. */
  datatype Tx = Tx(st: St, cnt: byte, sent: u16, crc: bv32,
                   dst: mac, ethertype: u16, wbase: nat, nbytes: u16, vlan: bool, tci: u16)

  const RESET: Tx := Tx(Idle, 0, 0, Crc.INIT, 0, 0, 0, 0, false, 0)

  const MIN_PAYLOAD: u16 := 46

  /** The first k bytes of an address as a number. */
  function MacTop(m: mac, k: nat): mac
    requires k <= 6
    decreases 6 - k, m
  {
    if k == 6 then m else MacTop(m, k + 1) / 0x100
  }

  /** Byte k of a MAC address in wire order. */
  function MacByte(m: mac, k: nat): byte
    requires k < 6
  {
    MacTop(m, k + 1) % 0x100
  }

  function HeaderLen(vlan: bool): nat { if vlan then 18 else 14 }

  function PayloadLen(nbytes: u16): u16 { if nbytes < MIN_PAYLOAD then MIN_PAYLOAD else nbytes }

  function PreambleByte(k: nat): byte { if k == 7 then 0xD5 else 0x55 }

  function HeaderByte(s: Tx): byte {
    if s.cnt < 6 then MacByte(s.dst, s.cnt)
    else if s.cnt < 12 then MacByte(BOARD_MAC, s.cnt - 6)
    else if s.vlan && s.cnt < 16 then
      if s.cnt == 12 then 0x81 else if s.cnt == 13 then 0x00 else if s.cnt == 14 then Hi(s.tci) else Lo(s.tci)
    else if (s.vlan && s.cnt == 16) || (!s.vlan && s.cnt == 12) then Hi(s.ethertype)
    else Lo(s.ethertype)
  }

  /** Counters in range and the frame inside a buffer of n words. */
  predicate Legal(s: Tx, n: nat) {
    match s.st
    case Idle => true
    case Send55 => s.cnt < 8 && s.sent == 0 && 4 * s.wbase + s.nbytes <= 4 * n
    case SendMac => s.cnt < HeaderLen(s.vlan) && s.sent == 0 && 4 * s.wbase + s.nbytes <= 4 * n
    case SendData => s.sent < PayloadLen(s.nbytes) && 4 * s.wbase + s.nbytes <= 4 * n
    case SendCrc => s.cnt < 4 && s.sent == PayloadLen(s.nbytes) && 4 * s.wbase + s.nbytes <= 4 * n
  }

  predicate LegalReq(r: TxReq, n: nat) {
    r.request ==> 4 * r.addr + r.len <= 4 * n
  }

  /** The MAC is reading the buffer, or about to. */
  predicate Busy(s: Tx, r: TxReq) { s.st != Idle || r.request }

  function DataByte(s: Tx, buffer: seq<word>): byte
    requires 4 * s.wbase + s.nbytes <= 4 * |buffer|
  {
    if s.sent < s.nbytes then ByteOf(buffer[s.wbase + s.sent / 4], s.sent % 4) else 0
  }

  /** mac_tx_process out of reset: new registers, request register, byte written. */
  function TxStep(s: Tx, r: TxReq, buffer: seq<word>): (Tx, TxReq, Option<Beat>)
    requires Legal(s, |buffer|)
  {
    match s.st
    case Idle =>
      if r.request then
        (Tx(Send55, 0, 0, Crc.INIT, r.dst, r.ethertype, r.addr, r.len, r.vlan, r.tci), r.(request := false), None)
      else (s.(crc := Crc.INIT), r, None)
    case Send55 =>
      (if s.cnt == 7 then s.(cnt := 0, st := SendMac) else s.(cnt := s.cnt + 1), r,
       Some(Beat(PreambleByte(s.cnt), false)))
    case SendMac => (AfterHeaderByte(s), r, Some(Beat(HeaderByte(s), false)))
    case SendData => (AfterDataByte(s, DataByte(s, buffer)), r, Some(Beat(DataByte(s, buffer), false)))
    case SendCrc => (AfterFcsByte(s), r, Some(Beat(Crc.FcsByte(s.crc, s.cnt), s.cnt == 3)))
  }

  function AfterHeaderByte(s: Tx): Tx
    requires s.cnt < 255
  {
    var s' := s.(crc := Crc.ByteStep(HeaderByte(s), s.crc));
    if s.cnt + 1 == HeaderLen(s.vlan) then s'.(cnt := 0, st := SendData) else s'.(cnt := s.cnt + 1)
  }

  /** Pad bytes are part of the frame and of its check sequence. */
  function AfterDataByte(s: Tx, bd: byte): Tx
    requires s.sent < PayloadLen(s.nbytes)
  {
    var s' := s.(crc := Crc.ByteStep(bd, s.crc), sent := s.sent + 1);
    if s.sent + 1 == PayloadLen(s.nbytes) then s'.(cnt := 0, st := SendCrc) else s'
  }

  function AfterFcsByte(s: Tx): Tx
    requires s.cnt < 4
  {
    if s.cnt == 3 then s.(cnt := 0, st := Idle) else s.(cnt := s.cnt + 1)
  }

  class Printer {
    var st: St
    var cnt: byte
    var sent: u16
    var crc: bv32
    var dst: mac
    var ethertype: u16
    var wbase: nat
    var nbytes: u16
    var vlan: bool
    var tci: u16

    ghost function State(): Tx
      reads this
    {
      Tx(st, cnt, sent, crc, dst, ethertype, wbase, nbytes, vlan, tci)
    }

    constructor ()
      ensures State() == RESET
    {
      st, cnt, sent, crc := Idle, 0, 0, Crc.INIT;
      dst, ethertype, wbase, nbytes, vlan, tci := 0, 0, 0, 0, false, 0;
    }

    /** The reset branch of mac_tx_process. */
    method Reset(reg: ReqRegister)
      modifies this, reg
      ensures State() == old(State()).(st := Idle, cnt := 0, sent := 0, crc := Crc.INIT)
      ensures reg.req == old(reg.req).(request := false)
    {
      st, cnt, sent, crc := Idle, 0, 0, Crc.INIT;
      reg.req := reg.req.(request := false);
    }

    /** mac_tx_process. */
    method Process(reg: ReqRegister, buffer: array<word>) returns (busy: bool, out: Option<Beat>)
      requires Legal(State(), buffer.Length)
      modifies this, reg
      ensures busy == Busy(old(State()), old(reg.req))
      ensures (State(), reg.req, out) == TxStep(old(State()), old(reg.req), buffer[..])
    {
      busy := st != Idle || reg.req.request;
      out := None;
      match st {
        case Idle =>
          crc := Crc.INIT;
          if reg.req.request {
            dst, ethertype, wbase, nbytes := reg.req.dst, reg.req.ethertype, reg.req.addr, reg.req.len;
            vlan, tci := reg.req.vlan, reg.req.tci;
            sent, cnt, st := 0, 0, Send55;
            reg.req := reg.req.(request := false);
          }
        case Send55 =>
          out := Some(Beat(PreambleByte(cnt), false));
          cnt := cnt + 1;
          if cnt == 8 {
            cnt, st := 0, SendMac;
          }
        case SendMac =>
          out := EmitHeader();
        case SendData =>
          out := EmitData(buffer);
        case SendCrc =>
          out := EmitFcs();
      }
    }

    method EmitHeader() returns (out: Option<Beat>)
      requires st == SendMac && cnt < HeaderLen(vlan)
      modifies this
      ensures State() == AfterHeaderByte(old(State())) && out == Some(Beat(HeaderByte(old(State())), false))
    {
      hide Crc.ByteStep, MacByte;
      var bd: byte;
      if cnt < 6 {
        bd := MacByte(dst, cnt);
      } else if cnt < 12 {
        bd := MacByte(BOARD_MAC, cnt - 6);
      } else if vlan && cnt < 16 {
        var pos := cnt - 12;
        bd := if pos == 0 then 0x81 else if pos == 1 then 0x00 else if pos == 2 then Hi(tci) else Lo(tci);
      } else if (vlan && cnt == 16) || (!vlan && cnt == 12) {
        bd := Hi(ethertype);
      } else {
        bd := Lo(ethertype);
      }
      out := Some(Beat(bd, false));
      crc := Crc.Crc32Byte(bd, crc);
      cnt := cnt + 1;
      if cnt == HeaderLen(vlan) {
        cnt, st := 0, SendData;
      }
    }

    method EmitData(buffer: array<word>) returns (out: Option<Beat>)
      requires st == SendData && Legal(State(), buffer.Length)
      modifies this
      ensures var bd := DataByte(old(State()), buffer[..]);
        State() == AfterDataByte(old(State()), bd) && out == Some(Beat(bd, false))
    {
      hide Crc.ByteStep, ByteOf;
      var bd: byte := 0;
      if sent < nbytes {
        var w := buffer[wbase + sent / 4];
        bd := ByteOf(w, sent % 4);
      }
      out := Some(Beat(bd, false));
      crc := Crc.Crc32Byte(bd, crc);
      sent := sent + 1;
      var txPayload := if nbytes < MIN_PAYLOAD then MIN_PAYLOAD else nbytes;
      if sent == txPayload {
        cnt, st := 0, SendCrc;
      }
    }

    method EmitFcs() returns (out: Option<Beat>)
      requires st == SendCrc && cnt < 4
      modifies this
      ensures State() == AfterFcsByte(old(State()))
      ensures out == Some(Beat(Crc.FcsByte(old(crc), old(cnt)), old(cnt) == 3))
    {
      hide Crc.FcsByte;
      out := Some(Beat(Crc.FcsByte(crc, cnt), cnt == 3));
      cnt := cnt + 1;
      if cnt == 4 {
        cnt, st := 0, Idle;
      }
    }
  }

  // ---------------------------------------------------------------- the frame on the wire

  function MacBytes(m: mac): seq<byte> {
    [MacByte(m, 0), MacByte(m, 1), MacByte(m, 2), MacByte(m, 3), MacByte(m, 4), MacByte(m, 5)]
  }

  function Zeros(n: nat): (s: seq<byte>)
    ensures |s| == n
    ensures forall i :: 0 <= i < n ==> s[i] == 0
  {
    seq(n, _ => 0)
  }

  /** A payload brought to the minimum length with zero bytes. */
  function Padded(p: seq<byte>): seq<byte> {
    if |p| < MIN_PAYLOAD then p + Zeros(MIN_PAYLOAD - |p|) else p
  }

  /** What the check sequence covers. */
  function Body(r: TxReq, p: seq<byte>): seq<byte> {
    MacBytes(r.dst) + MacBytes(BOARD_MAC) + (if r.vlan then [0x81, 0x00, Hi(r.tci), Lo(r.tci)] else [])
    + [Hi(r.ethertype), Lo(r.ethertype)] + Padded(p)
  }

  const PREAMBLE: seq<byte> := [0x55, 0x55, 0x55, 0x55, 0x55, 0x55, 0x55, 0xD5]

  function FrameBytes(r: TxReq, p: seq<byte>): seq<byte> {
    PREAMBLE + Body(r, p) + Crc.FcsBytes(Crc.Run(Crc.INIT, Body(r, p)))
  }

  /** A byte string as beats, the last one flagged. */
  function Beats(s: seq<byte>): (b: seq<Beat>)
    ensures |b| == |s|
    ensures forall i :: 0 <= i < |s| ==> b[i] == Beat(s[i], i == |s| - 1)
  {
    seq(|s|, i requires 0 <= i < |s| => Beat(s[i], i == |s| - 1))
  }

  /** The wire frame for a request and the bytes it points at. */
  function Wire(r: TxReq, p: seq<byte>): seq<Beat> {
    Beats(FrameBytes(r, p))
  }
}
