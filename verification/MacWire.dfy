/** What leaves the MAC: every accepted request becomes exactly its wire frame, byte for byte. */
module MacWire {
  import opened Bytes
  import opened Layout
  import opened MacTx
  import Crc

  /** The request being sent, as the MAC latched it. */
  function Latched(s: Tx): TxReq {
    TxReq(s.dst, s.ethertype, s.wbase, s.nbytes, true, s.vlan, s.tci)
  }

  /** The bytes a request points at. */
  function PayloadOf(r: TxReq, buffer: seq<word>): seq<byte>
    requires 4 * r.addr + r.len <= 4 * |buffer|
  {
    ReadBytes(buffer, r.addr, r.len)
  }

  /** The wire frame for a request on the present buffer contents. */
  function WireOf(r: TxReq, buffer: seq<word>): seq<Beat>
    requires 4 * r.addr + r.len <= 4 * |buffer|
  {
    Wire(r, PayloadOf(r, buffer))
  }

  /** How many bytes of the frame have been written. */
  function Position(s: Tx): nat
    requires s.st != Idle
  {
    match s.st
    case Send55 => s.cnt
    case SendMac => 8 + s.cnt
    case SendData => 8 + HeaderLen(s.vlan) + s.sent
    case SendCrc => 8 + HeaderLen(s.vlan) + PayloadLen(s.nbytes) + s.cnt
  }

  function BodyOf(s: Tx, buffer: seq<word>): seq<byte>
    requires 4 * s.wbase + s.nbytes <= 4 * |buffer|
  {
    Body(Latched(s), PayloadOf(Latched(s), buffer))
  }

  /** A frame is in flight and the register covers exactly the body bytes already written. */
  predicate Streaming(s: Tx, buffer: seq<word>) {
    && s.st != Idle && Legal(s, |buffer|)
    && var body := BodyOf(s, buffer);
       match s.st
       case Send55 => s.crc == Crc.INIT
       case SendMac => s.cnt <= |body| && s.crc == Crc.Run(Crc.INIT, body[..s.cnt])
       case SendData =>
         HeaderLen(s.vlan) + s.sent <= |body| && s.crc == Crc.Run(Crc.INIT, body[..HeaderLen(s.vlan) + s.sent])
       case SendCrc => s.crc == Crc.Run(Crc.INIT, body)
       case Idle => false
  }

  lemma BodyLength(r: TxReq, p: seq<byte>)
    requires |p| == r.len
    ensures |Body(r, p)| == HeaderLen(r.vlan) + PayloadLen(r.len)
    ensures |Wire(r, p)| == 8 + HeaderLen(r.vlan) + PayloadLen(r.len) + 4
  {
  }

  lemma WireBodyAt(r: TxReq, p: seq<byte>, k: nat)
    requires k < |Body(r, p)|
    ensures 8 + k + 4 < |Wire(r, p)| && Wire(r, p)[8 + k] == Beat(Body(r, p)[k], false)
  {
    hide Body, Crc.FcsBytes, Crc.Run;
  }

  /** The header bytes the printer computes are those of the body. */
  lemma BodyHeaderAt(s: Tx, p: seq<byte>)
    requires |p| == s.nbytes && s.cnt < HeaderLen(s.vlan)
    ensures Body(Latched(s), p)[s.cnt] == HeaderByte(s)
  {
    hide MacByte, Padded;
    var m := MacBytes(s.dst) + MacBytes(BOARD_MAC);
    var t := if s.vlan then [0x81, 0x00, Hi(s.tci), Lo(s.tci)] else [];
    assert Body(Latched(s), p) == m + (t + ([Hi(s.ethertype), Lo(s.ethertype)] + Padded(p)));
    if s.cnt < 12 {
      assert Body(Latched(s), p)[s.cnt] == m[s.cnt];
    }
  }

  lemma DataByteIs(s: Tx, m: seq<word>)
    requires 4 * s.wbase + s.nbytes <= 4 * |m|
    ensures DataByte(s, m) == if s.sent < s.nbytes then MemByte(m, 4 * s.wbase + s.sent) else 0
  {
  }

  lemma BodyDataAt(s: Tx, buffer: seq<word>)
    requires 4 * s.wbase + s.nbytes <= 4 * |buffer| && s.sent < PayloadLen(s.nbytes)
    ensures HeaderLen(s.vlan) + s.sent < |BodyOf(s, buffer)|
    ensures BodyOf(s, buffer)[HeaderLen(s.vlan) + s.sent] == DataByte(s, buffer)
  {
    hide MacBytes, MemByte, DataByte, Body;
    var p := PayloadOf(Latched(s), buffer);
    BodyLength(Latched(s), p);
    BodyTail(Latched(s), p, s.sent);
    DataByteIs(s, buffer);
  }

  /** Behind the header the body is the padded payload. */
  lemma BodyTail(r: TxReq, p: seq<byte>, k: nat)
    requires |p| == r.len && k < PayloadLen(r.len)
    ensures |Body(r, p)| == HeaderLen(r.vlan) + PayloadLen(r.len)
    ensures Body(r, p)[HeaderLen(r.vlan) + k] == if k < |p| then p[k] else 0
  {
    hide MacByte;
    BodyLength(r, p);
    assert Body(r, p)[HeaderLen(r.vlan) + k] == Padded(p)[k];
  }

  lemma RunSnoc(c: bv32, s: seq<byte>, k: nat)
    requires k < |s|
    ensures Crc.Run(c, s[..k + 1]) == Crc.ByteStep(s[k], Crc.Run(c, s[..k]))
  {
    hide Crc.ByteStep;
    assert s[..k + 1] == s[..k] + [s[k]];
    Crc.RunAppend(c, s[..k], [s[k]]);
    assert Crc.Run(Crc.Run(c, s[..k]), [s[k]]) == Crc.Run(Crc.ByteStep(s[k], Crc.Run(c, s[..k])), []);
  }

  lemma EmitsPreamble(s: Tx, r: TxReq, buffer: seq<word>)
    requires Streaming(s, buffer) && s.st == Send55
    ensures Emits(s, r, buffer)
  {
    hide Body, Crc.Run, Crc.FcsBytes, MacByte;
    BodyLength(Latched(s), PayloadOf(Latched(s), buffer));
    var s' := TxStep(s, r, buffer).0;
    assert BodyOf(s, buffer)[..0] == [];
    assert Crc.Run(Crc.INIT, []) == Crc.INIT by {
      EmptyRun();
    }
    assert FrameBytes(Latched(s), PayloadOf(Latched(s), buffer))[s.cnt] == PREAMBLE[s.cnt];
    assert BodyOf(s', buffer) == BodyOf(s, buffer);
  }

  lemma EmptyRun()
    ensures Crc.Run(Crc.INIT, []) == Crc.INIT
  {
  }

  /** One pass in flight writes the next byte of the frame and keeps the invariant. */
  predicate Emits(s: Tx, r: TxReq, buffer: seq<word>)
    requires Streaming(s, buffer)
  {
    var (s', r', out) := TxStep(s, r, buffer);
    var w := WireOf(Latched(s), buffer);
    && Position(s) < |w| && r' == r && out == Some(w[Position(s)])
    && if Position(s) + 1 == |w| then s'.st == Idle
       else Streaming(s', buffer) && Latched(s') == Latched(s) && Position(s') == Position(s) + 1
  }

  lemma EmitsHeader(s: Tx, r: TxReq, buffer: seq<word>)
    requires Streaming(s, buffer) && s.st == SendMac
    ensures Emits(s, r, buffer)
  {
    hide Crc.Run, Wire, MacByte, HeaderByte, Crc.ByteStep, Body;
    var p := PayloadOf(Latched(s), buffer);
    BodyLength(Latched(s), p);
    BodyHeaderAt(s, p);
    WireBodyAt(Latched(s), p, s.cnt);
    RunSnoc(Crc.INIT, BodyOf(s, buffer), s.cnt);
    var s' := TxStep(s, r, buffer).0;
    assert BodyOf(s', buffer) == BodyOf(s, buffer);
  }

  lemma EmitsData(s: Tx, r: TxReq, buffer: seq<word>)
    requires Streaming(s, buffer) && s.st == SendData
    ensures Emits(s, r, buffer)
  {
    hide Crc.Run, Wire, Body, Crc.ByteStep, DataByte;
    var p := PayloadOf(Latched(s), buffer);
    BodyLength(Latched(s), p);
    BodyDataAt(s, buffer);
    var body := BodyOf(s, buffer);
    var k := HeaderLen(s.vlan) + s.sent;
    RunSnoc(Crc.INIT, body, k);
    var s' := TxStep(s, r, buffer).0;
    WireBodyAt(Latched(s), p, k);
    assert BodyOf(s', buffer) == body;
    if k + 1 == |body| {
      assert body[..k + 1] == body;
    }
  }

  lemma EmitsFcs(s: Tx, r: TxReq, buffer: seq<word>)
    requires Streaming(s, buffer) && s.st == SendCrc
    ensures Emits(s, r, buffer)
  {
    hide Crc.Run, Crc.FcsBytes, Crc.FcsByte, Body;
    var p := PayloadOf(Latched(s), buffer);
    BodyLength(Latched(s), p);
    var body := BodyOf(s, buffer);
    var s' := TxStep(s, r, buffer).0;
    assert FrameBytes(Latched(s), p)[8 + |body| + s.cnt] == Crc.FcsBytes(s.crc)[s.cnt];
    assert BodyOf(s', buffer) == body;
  }

  lemma StepEmits(s: Tx, r: TxReq, buffer: seq<word>)
    requires Streaming(s, buffer)
    ensures Emits(s, r, buffer)
  {
    hide Emits, Streaming;
    match s.st
    case Send55 => EmitsPreamble(s, r, buffer);
    case SendMac => EmitsHeader(s, r, buffer);
    case SendData => EmitsData(s, r, buffer);
    case SendCrc => EmitsFcs(s, r, buffer);
    case Idle => NotIdle(s, buffer);
  }

  lemma NotIdle(s: Tx, buffer: seq<word>)
    requires Streaming(s, buffer)
    ensures s.st != Idle && Legal(s, |buffer|) && 4 * Latched(s).addr + Latched(s).len <= 4 * |buffer|
  {
  }

  /** An idle MAC takes a pending request: nothing is written in that pass, and the frame starts. */
  lemma Accepts(s: Tx, r: TxReq, buffer: seq<word>)
    requires s.st == Idle && r.request && LegalReq(r, |buffer|)
    ensures var (s', r', out) := TxStep(s, r, buffer);
      out == None && !r'.request && Streaming(s', buffer) && Latched(s') == r && Position(s') == 0
  {
  }

  // ---------------------------------------------------------------- a whole frame

  /** Passes on a buffer nobody writes, with no further request. */
  function Stream(s: Tx, r: TxReq, buffer: seq<word>, n: nat): (Tx, TxReq, seq<Beat>)
    requires Legal(s, |buffer|) && LegalReq(r, |buffer|)
    decreases n
  {
    if n == 0 then (s, r, [])
    else
      var (s', r', out) := TxStep(s, r, buffer);
      StepLegal(s, r, buffer);
      var (e, q, rest) := Stream(s', r', buffer, n - 1);
      (e, q, (if out.Some? then [out.value] else []) + rest)
  }

  lemma StepLegal(s: Tx, r: TxReq, buffer: seq<word>)
    requires Legal(s, |buffer|) && LegalReq(r, |buffer|)
    ensures Legal(TxStep(s, r, buffer).0, |buffer|) && LegalReq(TxStep(s, r, buffer).1, |buffer|)
  {
    hide Crc.ByteStep, HeaderByte, DataByte;
  }

  lemma {:induction false} StreamRest(s: Tx, r: TxReq, buffer: seq<word>)
    requires Streaming(s, buffer) && LegalReq(r, |buffer|)
    ensures Position(s) <= |WireOf(Latched(s), buffer)|
    ensures var w := WireOf(Latched(s), buffer);
      var (e, q, out) := Stream(s, r, buffer, |w| - Position(s));
      e.st == Idle && q == r && out == w[Position(s)..]
    decreases |WireOf(Latched(s), buffer)| - Position(s)
  {
    hide Streaming, WireOf, TxStep, Position, Latched;
    NotIdle(s, buffer);
    StepEmits(s, r, buffer);
    var w := WireOf(Latched(s), buffer);
    var (s', r', out) := TxStep(s, r, buffer);
    if Position(s) + 1 < |w| {
      NotIdle(s', buffer);
      StreamRest(s', r', buffer);
      assert w[Position(s)..] == [w[Position(s)]] + w[Position(s')..];
    } else {
      assert w[Position(s)..] == [w[Position(s)]];
      assert Stream(s', r', buffer, 0) == (s', r', []);
    }
  }

  /** A request given to an idle MAC comes out as exactly its wire frame, in as many passes as it has bytes plus one,
      and leaves the MAC idle. */
  lemma SendsWire(s: Tx, r: TxReq, buffer: seq<word>)
    requires s.st == Idle && r.request && LegalReq(r, |buffer|)
    ensures var w := WireOf(r, buffer);
      var (e, q, out) := Stream(s, r, buffer, |w| + 1);
      e.st == Idle && q == r.(request := false) && out == w
  {
    Accepts(s, r, buffer);
    var (s', r', out) := TxStep(s, r, buffer);
    StreamRest(s', r', buffer);
    var w := WireOf(r, buffer);
    assert w[0..] == w;
    assert [] + w == w;
  }

  // ---------------------------------------------------------------- a buffer written under the frame

  /** Passes until the frame in flight is written. */
  function Left(s: Tx, n: nat): nat
    requires Legal(s, n) && s.st != Idle
  {
    8 + HeaderLen(s.vlan) + PayloadLen(s.nbytes) + 4 - Position(s)
  }

  /** Two buffers hold the same bytes where the frame is still to be read. */
  predicate SameAhead(s: Tx, m1: seq<word>, m2: seq<word>)
    requires 4 * s.wbase + s.nbytes <= 4 * |m1| && |m1| == |m2|
  {
    var p1, p2 := ReadBytes(m1, s.wbase, s.nbytes), ReadBytes(m2, s.wbase, s.nbytes);
    forall i :: s.sent <= i < s.nbytes ==> p1[i] == p2[i]
  }

  /** One pass on either buffer. */
  lemma StepAhead(s: Tx, r: TxReq, m1: seq<word>, m2: seq<word>)
    requires |m1| == |m2| && s.st != Idle && Legal(s, |m1|)
    ensures var x, y := TxStep(s, r, m1), TxStep(s, r, m2);
      && Legal(x.0, |m1|) && x.1 == y.1 == r && x.2.Some? && y.2.Some?
      && (x.0.st == Idle <==> Left(s, |m1|) == 1)
      && (x.0.st != Idle ==> Left(x.0, |m1|) + 1 == Left(s, |m1|))
      && x.0.wbase == s.wbase && x.0.nbytes == s.nbytes
      && (x.0.st == Idle ==> s.sent >= s.nbytes)
      && x.0.sent == s.sent + (if s.st == SendData then 1 else 0)
      && (x == y <==> (s.st == SendData && s.sent < s.nbytes ==>
                         MemByte(m1, 4 * s.wbase + s.sent) == MemByte(m2, 4 * s.wbase + s.sent)))
      && (x != y ==> x.2 != y.2)
  {
    hide Crc.ByteStep, Crc.FcsByte, HeaderByte, DataByte, MemByte, PreambleByte;
    if s.st == SendData {
      DataByteIs(s, m1);
      DataByteIs(s, m2);
    }
  }

  /** The same frame streamed from two buffers: the bytes written agree exactly if the buffers do ahead of it. */
  lemma {:induction false} StreamsAgreeIff(s: Tx, r: TxReq, m1: seq<word>, m2: seq<word>)
    requires |m1| == |m2| && s.st != Idle && Legal(s, |m1|) && LegalReq(r, |m1|)
    ensures Stream(s, r, m1, Left(s, |m1|)).2 == Stream(s, r, m2, Left(s, |m1|)).2 <==> SameAhead(s, m1, m2)
    decreases Left(s, |m1|)
  {
    hide TxStep, MemByte, Position;
    StepAhead(s, r, m1, m2);
    var n := Left(s, |m1|);
    var x, y := TxStep(s, r, m1), TxStep(s, r, m2);
    if x == y {
      if x.0.st == Idle {
        assert Stream(x.0, r, m1, 0).2 == Stream(x.0, r, m2, 0).2 == [];
        assert SameAhead(s, m1, m2);
      } else {
        StreamsAgreeIff(x.0, r, m1, m2);
        var u, v := Stream(x.0, r, m1, n - 1).2, Stream(x.0, r, m2, n - 1).2;
        assert [x.2.value] + u == [x.2.value] + v <==> u == v by {
          assert ([x.2.value] + u)[1..] == u && ([x.2.value] + v)[1..] == v;
        }
      }
    } else {
      assert ReadBytes(m1, s.wbase, s.nbytes)[s.sent] != ReadBytes(m2, s.wbase, s.nbytes)[s.sent];
      assert Stream(s, r, m1, n).2[0] != Stream(s, r, m2, n).2[0];
    }
  }

  lemma StreamedLeft(s: Tx, r: TxReq, m: seq<word>)
    requires Streaming(s, m) && Legal(s, |m|) && LegalReq(r, |m|)
    ensures 4 * s.wbase + s.nbytes <= 4 * |m| && Position(s) <= |WireOf(Latched(s), m)|
    ensures Stream(s, r, m, Left(s, |m|)).2 == WireOf(Latched(s), m)[Position(s)..]
  {
    hide Streaming, Wire, TxStep, Stream;
    NotIdle(s, m);
    StreamRest(s, r, m);
    BodyLength(Latched(s), PayloadOf(Latched(s), m));
  }

  /** A frame under way, written beneath: what still goes out is what was owed exactly if no byte ahead changed. */
  lemma TornIff(s: Tx, r: TxReq, m1: seq<word>, m2: seq<word>)
    requires |m1| == |m2| && Streaming(s, m1) && Legal(s, |m1|) && LegalReq(r, |m1|)
    ensures 4 * s.wbase + s.nbytes <= 4 * |m1| && Position(s) <= |WireOf(Latched(s), m1)|
    ensures Stream(s, r, m2, Left(s, |m1|)).2 == WireOf(Latched(s), m1)[Position(s)..] <==> SameAhead(s, m1, m2)
  {
    hide Streaming, Wire, TxStep, Stream, SameAhead, Position, Legal;
    NotIdle(s, m1);
    StreamedLeft(s, r, m1);
    StreamsAgreeIff(s, r, m1, m2);
  }
}
