/** The DHCP client of layer_dhcp.cpp: one retry counter for both phases, a timer that counts calls of the transmit
    half, and the DISCOVER and REQUEST frames. */
module Dhcp {
  import opened Bytes
  import opened Layout
  import opened Store
  import opened DhcpOptions
  import Ip

  const TIMEOUT: nat := 0x100_0000
  const MSG_SIZE: u16 := 300
  const MSG_WORDS: nat := 75
  const BUF_BASE: nat := DHCP_FRAME_BASE + 7
  const MAX_RETRIES: nat := 3
  const XID0: word := 0x1234_5678

  const MSG_DISCOVER: byte := 1
  const MSG_OFFER: byte := 2
  const MSG_REQUEST: byte := 3
  const MSG_ACK: byte := 5

  datatype St = Idle | Discover | WaitOffer | Request | WaitAck | Done | Failed

  datatype Client = Client(st: St, xid: word, offered: word, server: word, timer: word, retries: nat)

  const RESET: Client := Client(Idle, XID0, 0, 0, 0, 0)

  /** A received message: type, yiaddr and the server option if present. */
  datatype Message = Message(kind: byte, yiaddr: word, server: Option<word>)

  function Tick(c: Client): Client {
    if c.st == Idle || c.st == Done || c.st == Failed then c else c.(timer := (c.timer + 1) % WRAP)
  }

  function Started(c: Client, start: bool): Client {
    if start && c.st == Idle then c.(st := Discover, timer := 0, retries := 0, xid := XID0) else c
  }

  /** One call of dhcp_tx_process out of reset: the client after it and the message kind sent, if any. */
  function TxStep(c: Client, start: bool): (Client, Option<byte>) {
    var s := Started(Tick(c), start);
    if s.timer >= TIMEOUT && (s.st == WaitOffer || s.st == WaitAck) then
      if s.retries < MAX_RETRIES then
        (s.(retries := s.retries + 1, st := if s.st == WaitOffer then Discover else Request, timer := 0), None)
      else (s.(st := Failed, retries := 0), None)
    else if s.st == Discover then (s.(st := WaitOffer, timer := 0), Some(MSG_DISCOVER))
    else if s.st == Request then (s.(st := WaitAck, timer := 0), Some(MSG_REQUEST))
    else (s, None)
  }

  /** One call of dhcp_rx_process with a message; the flag says the start signal is raised. */
  function RxStep(c: Client, m: Message): (Client, bool) {
    if c.st == WaitOffer && m.kind == MSG_OFFER then
      (c.(st := Request, offered := m.yiaddr, server := if m.server.Some? then m.server.value else c.server), false)
    else if c.st == WaitAck && m.kind == MSG_ACK then (c.(st := Done), true)
    else (c, false)
  }

  // ---------------------------------------------------------------- runs

  datatype Event = Call(start: bool) | Receive(msg: Message)

  function Step(c: Client, e: Event): (Client, nat) {
    match e
    case Call(start) => (TxStep(c, start).0, if TxStep(c, start).1.Some? then 1 else 0)
    case Receive(m) => (RxStep(c, m).0, 0)
  }

  /** The client after a run and how many frames it sent. */
  function Run(c: Client, es: seq<Event>): (Client, nat)
    decreases |es|
  {
    if es == [] then (c, 0)
    else
      var (d, n) := Step(c, es[0]);
      var (f, m) := Run(d, es[1..]);
      (f, n + m)
  }

  function Calls(es: seq<Event>): nat {
    if es == [] then 0 else (if es[0].Call? then 1 else 0) + Calls(es[1..])
  }

  predicate Finished(c: Client) { c.st == Done || c.st == Failed }

  /** Reachable counter values. */
  predicate Sane(c: Client) {
    c.retries <= MAX_RETRIES && (c.timer < TIMEOUT || Finished(c))
  }

  /** The most frames a client can still send. */
  function FramesLeft(c: Client): nat
    requires Sane(c)
  {
    match c.st
    case Idle => 5
    case Discover => 5 - c.retries
    case WaitOffer => 4 - c.retries
    case Request => 4 - c.retries
    case WaitAck => 3 - c.retries
    case Done => 0
    case Failed => 0
  }

  lemma StepSane(c: Client, e: Event)
    requires Sane(c)
    ensures Sane(Step(c, e).0)
    ensures Step(c, e).1 + FramesLeft(Step(c, e).0) <= FramesLeft(c)
  {
  }

  lemma {:induction false} RunSends(c: Client, es: seq<Event>)
    requires Sane(c)
    ensures Sane(Run(c, es).0)
    ensures Run(c, es).1 + FramesLeft(Run(c, es).0) <= FramesLeft(c)
    decreases |es|
  {
    hide Step, FramesLeft, Sane;
    if es != [] {
      StepSane(c, es[0]);
      RunSends(Step(c, es[0]).0, es[1..]);
    }
  }

  /** From reset, under any start signal and any messages, at most five frames are ever sent. */
  lemma AtMostFiveFrames(es: seq<Event>)
    ensures Run(RESET, es).1 <= 5
  {
    RunSends(RESET, es);
  }

  /** Done and Failed are final, and silent. */
  lemma {:induction false} FinishedForever(c: Client, es: seq<Event>)
    requires Finished(c)
    ensures Run(c, es).1 == 0 && Run(c, es).0.st == c.st
    decreases |es|
  {
    if es != [] {
      FinishedForever(Step(c, es[0]).0, es[1..]);
    }
  }

  /** Transmit calls after which a started client must have finished. */
  function CallsLeft(c: Client): nat
    requires Sane(c)
  {
    match c.st
    case Idle => 0
    case Discover => (4 - c.retries) * (TIMEOUT + 1) + TIMEOUT + 1
    case WaitOffer => (TIMEOUT - c.timer) + (3 - c.retries) * (TIMEOUT + 1) + TIMEOUT + 1
    case Request => (4 - c.retries) * (TIMEOUT + 1)
    case WaitAck => (TIMEOUT - c.timer) + (3 - c.retries) * (TIMEOUT + 1)
    case Done => 0
    case Failed => 0
  }

  lemma StepCountsDown(c: Client, e: Event)
    requires Sane(c) && c.st != Idle
    ensures Sane(Step(c, e).0) && Step(c, e).0.st != Idle
    ensures CallsLeft(Step(c, e).0) <= CallsLeft(c)
    ensures e.Call? && !Finished(c) ==> CallsLeft(Step(c, e).0) < CallsLeft(c)
  {
  }

  lemma {:induction false} GivesUp(c: Client, es: seq<Event>)
    requires Sane(c) && c.st != Idle && Calls(es) >= CallsLeft(c)
    ensures Finished(Run(c, es).0)
    decreases |es|
  {
    hide Step;
    if es == [] {
      assert CallsLeft(c) == 0;
    } else {
      StepCountsDown(c, es[0]);
      var d := Step(c, es[0]).0;
      if Finished(d) {
        FinishedForever(d, es[1..]);
      } else {
        hide CallsLeft;
        GivesUp(d, es[1..]);
      }
    }
  }

  /** Once started, the client is done or has failed after at most five timeouts' worth of transmit calls, whatever
      arrives in between. */
  lemma FinishesInFiveTimeouts(c: Client, es: seq<Event>)
    requires Sane(c) && c.st == Idle && Calls(es) >= 5 * (TIMEOUT + 1) - 1
    ensures Finished(Run(TxStep(c, true).0, es).0)
  {
    var d := TxStep(c, true).0;
    assert d.st == WaitOffer && d.timer == 0 && d.retries == 0;
    GivesUp(d, es);
  }

  // ---------------------------------------------------------------- the protocol, exactly

  /** n transmit calls with nothing received. */
  function Silence(n: nat): (es: seq<Event>)
    ensures |es| == n
    decreases n
  {
    if n == 0 then [] else [Call(true)] + Silence(n - 1)
  }

  lemma {:induction false} RunJoin(c: Client, a: seq<Event>, b: seq<Event>)
    ensures Run(c, a + b) == (Run(Run(c, a).0, b).0, Run(c, a).1 + Run(Run(c, a).0, b).1)
    decreases |a|
  {
    hide Step;
    if a == [] {
      assert a + b == b;
    } else {
      assert (a + b)[1..] == a[1..] + b;
      RunJoin(Step(c, a[0]).0, a[1..], b);
    }
  }

  lemma {:induction false} SilenceJoin(n: nat, k: nat)
    ensures Silence(n + k) == Silence(n) + Silence(k)
    decreases n
  {
    if n > 0 {
      SilenceJoin(n - 1, k);
    }
  }

  /** Before the timeout a waiting client only counts. */
  lemma {:induction false} WaitsQuietly(c: Client, n: nat)
    requires (c.st == WaitOffer || c.st == WaitAck) && c.timer + n < TIMEOUT
    ensures Run(c, Silence(n)) == (c.(timer := c.timer + n), 0)
    decreases n
  {
    hide Step;
    if n > 0 {
      OneQuiet(c);
      WaitsQuietly(c.(timer := c.timer + 1), n - 1);
    }
  }

  lemma OneQuiet(c: Client)
    requires (c.st == WaitOffer || c.st == WaitAck) && c.timer + 1 < TIMEOUT
    ensures Step(c, Call(true)) == (c.(timer := c.timer + 1), 0)
  {
  }

  /** At the timeout it tries again in the call after, at most three times, and then fails. */
  lemma TriesAgain(c: Client)
    requires (c.st == WaitOffer || c.st == WaitAck) && c.timer == 0 && c.retries <= MAX_RETRIES
    ensures c.retries == MAX_RETRIES ==>
      Run(c, Silence(TIMEOUT)) == (c.(st := Failed, retries := 0, timer := TIMEOUT), 0)
    ensures c.retries < MAX_RETRIES ==> Run(c, Silence(TIMEOUT + 1)) == (c.(retries := c.retries + 1), 1)
  {
    hide Run;
    WaitsQuietly(c, TIMEOUT - 1);
    SilenceJoin(TIMEOUT - 1, 1);
    SilenceJoin(TIMEOUT - 1, 2);
    RunJoin(c, Silence(TIMEOUT - 1), Silence(1));
    RunJoin(c, Silence(TIMEOUT - 1), Silence(2));
    LastCalls(c.(timer := TIMEOUT - 1));
  }

  lemma LastCalls(c: Client)
    requires (c.st == WaitOffer || c.st == WaitAck) && c.timer == TIMEOUT - 1 && c.retries <= MAX_RETRIES
    ensures c.retries == MAX_RETRIES ==>
      Run(c, Silence(1)) == (c.(st := Failed, retries := 0, timer := TIMEOUT), 0)
    ensures c.retries < MAX_RETRIES ==> Run(c, Silence(2)) == (c.(retries := c.retries + 1, timer := 0), 1)
  {
    var es := Silence(2);
    assert Silence(1)[1..] == [] && es[1..] == Silence(1);
    var d := Step(c, Call(true)).0;
    assert Run(d, Silence(1)) == (Step(d, Call(true)).0, Step(d, Call(true)).1);
    assert Run(c, Silence(1)) == (d, Step(c, Call(true)).1);
  }

  /** A client whom nobody answers sends exactly four DISCOVERs, one at once and one after each of the first three
      timeouts, and has failed after the fourth. */
  lemma SilentFails()
    ensures Run(RESET, Silence(1 + 3 * (TIMEOUT + 1) + TIMEOUT)).0.st == Failed
    ensures Run(RESET, Silence(1 + 3 * (TIMEOUT + 1) + TIMEOUT)).1 == 4
  {
    hide Run;
    var t := TIMEOUT + 1;
    var c := RESET.(st := WaitOffer);
    FirstCall();
    TriesAgain(c);
    TriesAgain(c.(retries := 1));
    TriesAgain(c.(retries := 2));
    TriesAgain(c.(retries := 3));
    SilenceJoin(1, t + t + t + TIMEOUT);
    SilenceJoin(t, t + t + TIMEOUT);
    SilenceJoin(t, t + TIMEOUT);
    SilenceJoin(t, TIMEOUT);
    RunJoin(RESET, Silence(1), Silence(t + t + t + TIMEOUT));
    RunJoin(c, Silence(t), Silence(t + t + TIMEOUT));
    RunJoin(c.(retries := 1), Silence(t), Silence(t + TIMEOUT));
    RunJoin(c.(retries := 2), Silence(t), Silence(TIMEOUT));
  }

  lemma FirstCall()
    ensures Run(RESET, Silence(1)) == (RESET.(st := WaitOffer), 1) && TxStep(RESET, true).1 == Some(MSG_DISCOVER)
  {
    assert Silence(1)[1..] == [];
  }

  /** An offer in time is requested in the next call, with the offered address and the server it names; section 3.1 of
      RFC 2131. */
  lemma OfferRequested(c: Client, m: Message, start: bool)
    requires c.st == WaitOffer && m.kind == MSG_OFFER
    ensures var (d, sent) := TxStep(RxStep(c, m).0, start);
      && sent == Some(MSG_REQUEST) && !RxStep(c, m).1 && d.st == WaitAck && d.timer == 0 && d.xid == c.xid
      && d.offered == m.yiaddr && d.server == (if m.server.Some? then m.server.value else c.server)
  {
  }

  /** An acknowledgement in time ends it; whatever else comes while the client waits, and anything at another time,
      changes nothing. */
  lemma AckEnds(c: Client, m: Message)
    ensures c.st == WaitAck && m.kind == MSG_ACK ==> RxStep(c, m) == (c.(st := Done), true)
    ensures !(c.st == WaitAck && m.kind == MSG_ACK) && !(c.st == WaitOffer && m.kind == MSG_OFFER) ==>
      RxStep(c, m) == (c, false)
  {
  }

  /** The whole exchange: DISCOVER, an offer in time, REQUEST, an acknowledgement in time. Two frames, and done. */
  lemma Exchange(offer: Message, ack: Message, k: nat, n: nat)
    requires offer.kind == MSG_OFFER && ack.kind == MSG_ACK && k < TIMEOUT && n < TIMEOUT
    ensures var es := Silence(1 + k) + ([Receive(offer)] + (Silence(1 + n) + [Receive(ack)]));
      && Run(RESET, es).1 == 2 && Run(RESET, es).0.st == Done && Run(RESET, es).0.offered == offer.yiaddr
  {
    var c := RESET.(st := WaitOffer);
    var d := RxStep(c.(timer := k), offer).0;
    var e := TxStep(d, true).0;
    FirstCall();
    OfferRequested(c.(timer := k), offer, true);
    OneCall(d);
    OneMessage(c.(timer := k), offer);
    OneMessage(e.(timer := n), ack);
    WaitsQuietly(c, k);
    WaitsQuietly(e, n);
    SilenceJoin(1, k);
    SilenceJoin(1, n);
    hide Run, TxStep, RxStep, Silence;
    RunJoin(RESET, Silence(1), Silence(k));
    RunJoin(d, Silence(1), Silence(n));
    AckEnds(e.(timer := n), ack);
    RunJoin(d, Silence(1 + n), [Receive(ack)]);
    RunJoin(c.(timer := k), [Receive(offer)], Silence(1 + n) + [Receive(ack)]);
    RunJoin(RESET, Silence(1 + k), [Receive(offer)] + (Silence(1 + n) + [Receive(ack)]));
  }

  lemma OneCall(c: Client)
    ensures Run(c, Silence(1)) == (TxStep(c, true).0, if TxStep(c, true).1.Some? then 1 else 0)
  {
    assert Silence(1)[1..] == [];
  }

  lemma OneMessage(c: Client, m: Message)
    ensures Run(c, [Receive(m)]) == (RxStep(c, m).0, 0)
  {
    assert [Receive(m)][1..] == [];
  }

  // ---------------------------------------------------------------- frames

  const FLAG_BROADCAST: word := 0x8000_0000
  const MAGIC_COOKIE: word := 0x6382_5363
  const OP_HTYPE_HLEN: word := 0x0101_0600
  const CHADDR_HI: word := 0x000A_3501
  const CHADDR_LO: word := 0xFEC0_0000

  /** The words of the fixed part that are not zero. */
  predicate IsField(k: nat) { k == 0 || k == 1 || k == 2 || k == 7 || k == 8 || k == 59 }

  function Field(xid: word, k: nat): word
    requires IsField(k)
  {
    if k == 0 then OP_HTYPE_HLEN else if k == 1 then xid else if k == 2 then FLAG_BROADCAST
    else if k == 7 then CHADDR_HI else if k == 8 then CHADDR_LO else MAGIC_COOKIE
  }

  /** The message before its options: zeros but for op, xid, the broadcast flag, chaddr and the cookie. */
  function FixedWords(xid: word): (ws: seq<word>)
    ensures |ws| == MSG_WORDS
  {
    seq(MSG_WORDS, i requires 0 <= i < MSG_WORDS => if IsField(i) then Field(xid, i) else 0)
  }

  /** The options of a message of one kind, without the end option. */
  function OptionsOf(c: Client, kind: byte): (o: seq<DhcpOption>)
    ensures forall i :: 0 <= i < |o| ==> Writable(o[i])
  {
    if kind == MSG_DISCOVER then [DhcpOption(53, [MSG_DISCOVER]), DhcpOption(55, [1, 3, 6, 15])]
    else [DhcpOption(53, [MSG_REQUEST]), DhcpOption(50, WordBytes(c.offered)), DhcpOption(54, WordBytes(c.server))]
  }

  function UdpHeader(): seq<byte> { [0, 68, 0, 67, Hi(8 + MSG_SIZE), Lo(8 + MSG_SIZE), 0, 0] }

  function FrameHeader(): (h: seq<byte>)
    ensures |h| == 28
  {
    Ip.Header(28 + MSG_SIZE, 0, 64, Ip.PROTO_UDP, 0, BROADCAST_IP) + UdpHeader()
  }

  function OptionBytes(c: Client, kind: byte): (s: seq<byte>)
    ensures |s| <= 32
  {
    hide Scan;
    var o := OptionsOf(c, kind);
    EncodedLength(o);
    Encoded(o) + [END, 0]
  }

  lemma EncodedLength(o: seq<DhcpOption>)
    requires |o| <= 3 && forall i :: 0 <= i < |o| ==> Writable(o[i])
    ensures |Encoded(o)| <= 6 * |o|
  {
    EncodedBound(o);
  }

  lemma {:induction false} EncodedBound(o: seq<DhcpOption>)
    requires forall i :: 0 <= i < |o| ==> Writable(o[i])
    ensures |Encoded(o)| <= 6 * |o|
    decreases |o|
  {
    if o != [] {
      EncodedBound(o[1..]);
    }
  }

  /** The buffer with a DHCP frame built in its region. */
  function FrameBuffer(mem: seq<word>, c: Client, kind: byte): (r: seq<word>)
    requires |mem| == BUFFER_DEPTH
    ensures |r| == BUFFER_DEPTH
  {
    Stored(WithBytes(Stored(mem, BUF_BASE, FixedWords(c.xid)), 4 * BUF_BASE + OPTIONS_AT, OptionBytes(c, kind)),
           DHCP_FRAME_BASE, WordsOf(FrameHeader(), 7))
  }

  function DhcpReq(r: TxReq): TxReq {
    r.(dst := BROADCAST_MAC, ethertype := ETHERTYPE_IPV4, addr := DHCP_FRAME_BASE, len := 28 + MSG_SIZE,
        request := true)
  }

  /** The bytes of a client's message before its options, laid out as in section 2 of RFC 2131: a boot request over
      Ethernet with an identification, without addresses, from the board. The broadcast flag, 0x8000, stands in the
      field for the elapsed seconds, bytes 8 and 9, and the flags field behind it is zero. */
  predicate BootRequest(p: seq<byte>, xid: word) {
    && |p| >= OPTIONS_AT
    && p[0] == 1 && p[1] == 1 && p[2] == 6 && p[3] == 0 && Ip.WordAt(p, 4) == xid
    && U16Of(p[8], p[9]) == 0x8000 && U16Of(p[10], p[11]) == 0
    && Zeros(p, 12, 28) && MacOf(p[28..34]) == BOARD_MAC && Zeros(p, 34, 236) && Ip.WordAt(p, 236) == 0x6382_5363
  }

  predicate Zeros(p: seq<byte>, from: nat, to: nat)
    requires from <= to <= |p|
  {
    forall i :: from <= i < to ==> p[i] == 0
  }

  /** The bytes in front of it: an accepted header from no address to all, the client's and the server's port, the
      length, and no checksum. */
  predicate ClientHeaders(p: seq<byte>) {
    && |p| == 28 && Ip.Accepts(p[..20])
    && Ip.Parse(p[..20]) == Ip.IpRx(true, Ip.PROTO_UDP, 328, 0, 64, 0, 0xFFFF_FFFF)
    && U16Of(p[20], p[21]) == 68 && U16Of(p[22], p[23]) == 67 && U16Of(p[24], p[25]) == 308 && p[26] == p[27] == 0
  }

  /** A built frame has these headers and this fixed part, and a reader finds the message kind and, in a REQUEST, the
      offered address and the server in its options. */
  lemma FrameReadsBack(mem: seq<word>, c: Client, kind: byte)
    requires |mem| == BUFFER_DEPTH && (kind == MSG_DISCOVER || kind == MSG_REQUEST)
    ensures var out := FrameBuffer(mem, c, kind);
      var m := ReadBytes(out, BUF_BASE, MSG_SIZE + 4);
      && ClientHeaders(ReadBytes(out, DHCP_FRAME_BASE, 28)) && BootRequest(m, c.xid)
      && Scan(m, OPTIONS_AT, MSG_SIZE, 53) == Some([kind])
      && (kind == MSG_REQUEST ==> Scan(m, OPTIONS_AT, MSG_SIZE, 50) == Some(WordBytes(c.offered)))
      && (kind == MSG_REQUEST ==> Scan(m, OPTIONS_AT, MSG_SIZE, 54) == Some(WordBytes(c.server)))
  {
    hide Scan, WordsOf, FixedWords, Ip.Header, Ip.Accepts, Ip.Parse, FirstOf, OptionsOf, FrameBuffer, MemByte,
         ClientHeaders, BootRequest;
    HeaderReadsBack(mem, c, kind);
    OptionReadsBack(mem, c, kind, 53);
    OptionReadsBack(mem, c, kind, 50);
    OptionReadsBack(mem, c, kind, 54);
    FirstOptions(c, kind);
    FixedReadsBack(FrameBuffer(mem, c, kind), c.xid);
  }

  lemma FixedReadsBack(out: seq<word>, xid: word)
    requires |out| == BUFFER_DEPTH && out[BUF_BASE..BUF_BASE + OPTIONS_AT / 4] == FixedWords(xid)[..OPTIONS_AT / 4]
    ensures BootRequest(ReadBytes(out, BUF_BASE, MSG_SIZE + 4), xid)
  {
    hide MemByte, FixedWords, MacOf, BootRequest, Field;
    var p := ReadBytes(out, BUF_BASE, MSG_SIZE + 4);
    var w := FixedWords(xid);
    forall k | 0 <= k < OPTIONS_AT ensures p[k] == MemByte(w, k) {
      FixedByte(out, w, k);
    }
    FixedBytes(xid, p);
  }

  lemma FixedByte(out: seq<word>, w: seq<word>, k: nat)
    requires |out| == BUFFER_DEPTH && |w| == MSG_WORDS && k < OPTIONS_AT
    requires out[BUF_BASE..BUF_BASE + OPTIONS_AT / 4] == w[..OPTIONS_AT / 4]
    ensures MemByte(out, 4 * BUF_BASE + k) == MemByte(w, k)
  {
    hide ByteOf;
    assert (4 * BUF_BASE + k) / 4 == BUF_BASE + k / 4 && (4 * BUF_BASE + k) % 4 == k % 4;
    assert out[BUF_BASE + k / 4] == out[BUF_BASE..BUF_BASE + OPTIONS_AT / 4][k / 4];
  }

  /** The bytes of the fixed part are those of its words. */
  predicate Spells(p: seq<byte>, xid: word) {
    |p| >= OPTIONS_AT && forall k :: 0 <= k < OPTIONS_AT ==> p[k] == MemByte(FixedWords(xid), k)
  }

  lemma FixedBytes(xid: word, p: seq<byte>)
    requires Spells(p, xid)
    ensures BootRequest(p, xid)
  {
    hide FixedWords, MacOf, ByteOf, WordOf, Spells, Zeros;
    FirstFields(xid, p);
    HardwareAddress(xid, p);
    ZeroRanges(xid, p);
    CookieAt(xid, p);
  }

  lemma ZeroRanges(xid: word, p: seq<byte>)
    requires Spells(p, xid)
    ensures |p| >= OPTIONS_AT && Zeros(p, 12, 28) && Zeros(p, 34, 236)
  {
    hide FixedWords, MemByte, MacOf;
    HardwareAddress(xid, p);
    forall k | 12 <= k < 28 || 36 <= k < 236 ensures p[k] == 0 {
      ZeroAt(xid, p, k);
    }
  }

  lemma FirstFields(xid: word, p: seq<byte>)
    requires Spells(p, xid)
    ensures |p| >= OPTIONS_AT && p[0] == 1 && p[1] == 1 && p[2] == 6 && p[3] == 0 && Ip.WordAt(p, 4) == xid
    ensures p[8] == 0x80 && p[9] == 0 && p[10] == 0 && p[11] == 0
  {
    hide FixedWords, ByteOf, WordOf;
    FieldWords(xid);
    FieldBytes();
    WordPlace(p, FixedWords(xid), 0);
    WordPlace(p, FixedWords(xid), 1);
    WordPlace(p, FixedWords(xid), 2);
    hide WordBytes, MemByte;
    var q, r := p[0..4], p[8..12];
    assert p[0] == q[0] && p[1] == q[1] && p[2] == q[2] && p[3] == q[3];
    assert p[8] == r[0] && p[9] == r[1] && p[10] == r[2] && p[11] == r[3];
  }

  lemma HardwareAddress(xid: word, p: seq<byte>)
    requires Spells(p, xid)
    ensures |p| >= OPTIONS_AT && MacOf(p[28..34]) == BOARD_MAC && p[34] == 0 && p[35] == 0
  {
    hide FixedWords, ByteOf, WordOf, MacOf;
    FieldWords(xid);
    FieldBytes();
    WordPlace(p, FixedWords(xid), 7);
    WordPlace(p, FixedWords(xid), 8);
    hide WordBytes, MemByte;
    var t := p[32..36];
    assert p[28..34] == p[28..32] + t[..2] == BOARD_MAC_BYTES;
    assert p[34] == t[2] && p[35] == t[3];
    BoardMacBytes();
  }

  lemma ZeroAt(xid: word, p: seq<byte>, k: nat)
    requires Spells(p, xid) && (12 <= k < 28 || 36 <= k < 236)
    ensures p[k] == 0
  {
    hide FixedWords, ByteOf;
    ZeroWord(xid, k / 4);
    ZeroByte(k % 4);
  }

  lemma CookieAt(xid: word, p: seq<byte>)
    requires Spells(p, xid)
    ensures |p| >= OPTIONS_AT && Ip.WordAt(p, 236) == 0x6382_5363
  {
    hide FixedWords, ByteOf, WordOf;
    FieldWords(xid);
    WordPlace(p, FixedWords(xid), 59);
  }

  lemma WordPlace(p: seq<byte>, w: seq<word>, j: nat)
    requires j < |w| && 4 * j + 4 <= |p| && forall k :: 4 * j <= k < 4 * j + 4 ==> p[k] == MemByte(w, k)
    ensures p[4 * j..4 * j + 4] == WordBytes(w[j]) && Ip.WordAt(p, 4 * j) == w[j]
  {
    WordOfByteOf(w[j]);
    hide ByteOf, WordOf;
    MemByteAt(w, j, 0);
    MemByteAt(w, j, 1);
    MemByteAt(w, j, 2);
    MemByteAt(w, j, 3);
  }

  lemma FieldWords(xid: word)
    ensures var w := FixedWords(xid);
      && w[0] == OP_HTYPE_HLEN && w[1] == xid && w[2] == FLAG_BROADCAST && w[7] == CHADDR_HI && w[8] == CHADDR_LO
      && w[59] == MAGIC_COOKIE
  {
  }

  lemma ZeroWord(xid: word, k: nat)
    requires k < MSG_WORDS && (3 <= k < 7 || 9 <= k < 59)
    ensures FixedWords(xid)[k] == 0
  {
  }

  lemma ZeroByte(k: nat)
    requires k < 4
    ensures ByteOf(0, k) == 0
  {
    assert ByteOf(0, 3) == 0 && ByteOf(0, 2) == 0 && ByteOf(0, 1) == 0 && ByteOf(0, 0) == 0;
  }

  lemma FieldBytes()
    ensures WordBytes(OP_HTYPE_HLEN) == [1, 1, 6, 0] && WordBytes(FLAG_BROADCAST) == [0x80, 0, 0, 0]
    ensures WordBytes(CHADDR_HI) == [0x00, 0x0A, 0x35, 0x01] && WordBytes(CHADDR_LO) == [0xFE, 0xC0, 0, 0]
  {
  }

  lemma HeaderReadsBack(mem: seq<word>, c: Client, kind: byte)
    requires |mem| == BUFFER_DEPTH
    ensures ClientHeaders(ReadBytes(FrameBuffer(mem, c, kind), DHCP_FRAME_BASE, 28))
  {
    hide WithBytes, WordsOf, FixedWords, OptionBytes, Ip.Header, Ip.Accepts, Ip.Parse, MemByte;
    var m := WithBytes(Stored(mem, BUF_BASE, FixedWords(c.xid)), 4 * BUF_BASE + OPTIONS_AT, OptionBytes(c, kind));
    var h := FrameHeader();
    ReadStored(m, DHCP_FRAME_BASE, h, 7, 28);
    Ip.HeaderAccepted(28 + MSG_SIZE, 0, 64, Ip.PROTO_UDP, 0, BROADCAST_IP);
    assert h[..20] == Ip.Header(28 + MSG_SIZE, 0, 64, Ip.PROTO_UDP, 0, BROADCAST_IP) && h[..28] == h;
  }

  lemma OptionReadsBack(mem: seq<word>, c: Client, kind: byte, target: byte)
    requires |mem| == BUFFER_DEPTH
    ensures var out := FrameBuffer(mem, c, kind);
      && Scan(ReadBytes(out, BUF_BASE, MSG_SIZE + 4), OPTIONS_AT, MSG_SIZE, target)
          == FirstOf(OptionsOf(c, kind), target)
      && out[BUF_BASE..BUF_BASE + OPTIONS_AT / 4] == FixedWords(c.xid)[..OPTIONS_AT / 4]
  {
    hide Scan, Encoded, WithBytes, WordsOf, FixedWords, FrameHeader, MemByte, FirstOf;
    var m0 := Stored(mem, BUF_BASE, FixedWords(c.xid));
    var o := OptionsOf(c, kind);
    EncodedLength(o);
    var m1 := WithBytes(m0, 4 * BUF_BASE + OPTIONS_AT, OptionBytes(c, kind));
    OptionsRoundTrip(m0, BUF_BASE, o, MSG_SIZE, target);
    ReadApart(m1, DHCP_FRAME_BASE, WordsOf(FrameHeader(), 7), BUF_BASE, MSG_SIZE + 4);
    assert m0[BUF_BASE..BUF_BASE + MSG_WORDS] == FixedWords(c.xid);
  }

  lemma FirstOptions(c: Client, kind: byte)
    requires kind == MSG_DISCOVER || kind == MSG_REQUEST
    ensures FirstOf(OptionsOf(c, kind), 53) == Some([kind])
    ensures kind == MSG_REQUEST ==> FirstOf(OptionsOf(c, kind), 50) == Some(WordBytes(c.offered))
    ensures kind == MSG_REQUEST ==> FirstOf(OptionsOf(c, kind), 54) == Some(WordBytes(c.server))
  {
    hide ByteOf;
    if kind == MSG_REQUEST {
      var o := OptionsOf(c, kind);
      assert o[1..] == [DhcpOption(50, WordBytes(c.offered)), DhcpOption(54, WordBytes(c.server))];
      assert o[1..][1..] == [DhcpOption(54, WordBytes(c.server))];
      assert FirstOf(o, 54) == FirstOf(o[1..], 54) == FirstOf(o[1..][1..], 54);
    }
  }

  /** What dhcp_rx_process reads from a received message of n bytes at word address base. A server option shorter than
      four bytes leaves the rest of the address to what the array on the stack held. */
  function ParseMessage(frame: seq<word>, base: nat, n: u16, stale: seq<byte>): Message
    requires 4 * base + n + 4 <= 4 * |frame| && base + 5 <= |frame| && |stale| == 4
  {
    var m := ReadBytes(frame, base, n + 4);
    var kind := Scan(m, OPTIONS_AT, n, 53);
    var server := Scan(m, OPTIONS_AT, n, 54);
    Message(if kind.Some? && kind.value != [] then kind.value[0] else 0, frame[base + 4],
            if server.Some? && server.value != [] then Some(ServerOf(server.value, stale)) else None)
  }

  /** The fields of a received message: the kind is the first byte of its first option 53, the address its bytes 16 to
      19, the server the value of its first option 54, completed from the array if it is short. */
  lemma MessageFields(frame: seq<word>, base: nat, n: u16, stale: seq<byte>)
    requires 4 * base + n + 4 <= 4 * |frame| && base + 5 <= |frame| && |stale| == 4 && n >= 16
    ensures var (m, p) := (ParseMessage(frame, base, n, stale), ReadBytes(frame, base, n + 4));
      && m.yiaddr == Ip.WordAt(p, 16)
      && m.kind == (match Scan(p, OPTIONS_AT, n, 53) case Some(v) => ByteAt(v, 0) case None => 0)
      && (match Scan(p, OPTIONS_AT, n, 54)
          case Some(v) => if |v| == 4 then m.server == Some(Ip.WordAt(v, 0)) else v == [] <==> m.server == None
          case None => m.server == None)
  {
    hide Scan, ByteOf, WordOf;
    WordOfByteOf(frame[base + 4]);
    MemByteAt(frame, base + 4, 0);
    MemByteAt(frame, base + 4, 1);
    MemByteAt(frame, base + 4, 2);
    MemByteAt(frame, base + 4, 3);
  }

  function ServerOf(data: seq<byte>, stale: seq<byte>): word
    requires |data| <= 4 && |stale| == 4
  {
    var s := data + stale[|data|..];
    WordOf(s[0], s[1], s[2], s[3])
  }

  class DhcpClient {
    var st: St
    var xid: word
    var offered: word
    var server: word
    var timer: word
    var retries: nat

    ghost function State(): Client
      reads this
    {
      Client(st, xid, offered, server, timer, retries)
    }

    constructor ()
      ensures State() == RESET
    {
      st, xid, offered, server, timer, retries := Idle, XID0, 0, 0, 0, 0;
    }

    /** dhcp_tx_process out of reset. */
    method Tx(start: bool, buffer: array<word>, reg: ReqRegister)
      requires buffer.Length == BUFFER_DEPTH
      modifies this, buffer, reg
      ensures var (c, sent) := TxStep(old(State()), start);
        && State() == c
        && buffer[..] == (if sent.Some? then FrameBuffer(old(buffer[..]), c, sent.value) else old(buffer[..]))
        && reg.req == (if sent.Some? then DhcpReq(old(reg.req)) else old(reg.req))
    {
      hide FrameBuffer;
      if st != Idle && st != Done && st != Failed {
        timer := (timer + 1) % WRAP;
      }
      if start && st == Idle {
        st, timer, retries := Discover, 0, 0;
        xid := XID0 + timer / 0x100 % 0x100;
      }
      var timeout := timer >= TIMEOUT;
      if timeout && (st == WaitOffer || st == WaitAck) {
        if retries < MAX_RETRIES {
          retries := retries + 1;
          st := if st == WaitOffer then Discover else Request;
          timer := 0;
        } else {
          st, retries := Failed, 0;
        }
        return;
      }
      if st == Discover {
        Build(buffer, MSG_DISCOVER);
        reg.req := DhcpReq(reg.req);
        st, timer := WaitOffer, 0;
      } else if st == Request {
        Build(buffer, MSG_REQUEST);
        reg.req := DhcpReq(reg.req);
        st, timer := WaitAck, 0;
      }
    }

    /** The frame for the present xid and addresses. */
    method Build(buffer: array<word>, kind: byte)
      requires buffer.Length == BUFFER_DEPTH && (kind == MSG_DISCOVER || kind == MSG_REQUEST)
      modifies buffer
      ensures forall c: Client :: c.xid == xid && c.offered == offered && c.server == server ==>
        buffer[..] == FrameBuffer(old(buffer[..]), c, kind)
    {
      hide FixedWords, WithBytes, WordsOf, Encoded, Ip.Header, ByteOf;
      ghost var c := State();
      ghost var m0 := buffer[..];
      BuildFixed(buffer);
      ghost var m1 := buffer[..];
      WriteOptions(buffer, kind);
      var hdr := Headers();
      StoreBytes(buffer, DHCP_FRAME_BASE, hdr, 7);
    }

    method ClearWords(buffer: array<word>)
      requires buffer.Length == BUFFER_DEPTH
      modifies buffer
      ensures buffer[..] == old(buffer[..])[..BUF_BASE] + seq(MSG_WORDS, _ => 0)
          + old(buffer[..])[BUF_BASE + MSG_WORDS..]
    {
      for i := 0 to MSG_WORDS
        invariant forall j :: 0 <= j < BUFFER_DEPTH ==>
          buffer[j] == if BUF_BASE <= j < BUF_BASE + i then 0 else old(buffer[j])
      {
        buffer[BUF_BASE + i] := 0;
      }
    }

    method BuildFixed(buffer: array<word>)
      requires buffer.Length == BUFFER_DEPTH
      modifies buffer
      ensures buffer[..] == Stored(old(buffer[..]), BUF_BASE, FixedWords(xid))
    {
      hide FixedWords;
      ghost var mem := buffer[..];
      ClearWords(buffer);
      WriteFields(buffer);
      FixedStored(mem, buffer[..], xid);
    }

    method WriteFields(buffer: array<word>)
      requires buffer.Length == BUFFER_DEPTH
      modifies buffer
      ensures forall j :: 0 <= j < BUFFER_DEPTH ==>
        buffer[j] == if BUF_BASE <= j < BUF_BASE + MSG_WORDS && IsField(j - BUF_BASE) then Field(xid, j - BUF_BASE)
                     else old(buffer[j])
    {
      buffer[BUF_BASE] := OP_HTYPE_HLEN;
      buffer[BUF_BASE + 1] := xid;
      buffer[BUF_BASE + 2] := FLAG_BROADCAST;
      buffer[BUF_BASE + 7] := CHADDR_HI;
      buffer[BUF_BASE + 8] := CHADDR_LO;
      buffer[BUF_BASE + 59] := MAGIC_COOKIE;
    }

    static lemma FixedStored(mem: seq<word>, out: seq<word>, xid: word)
      requires |mem| == |out| == BUFFER_DEPTH
      requires forall j :: 0 <= j < BUFFER_DEPTH ==>
        out[j] == if !(BUF_BASE <= j < BUF_BASE + MSG_WORDS) then mem[j]
                  else if IsField(j - BUF_BASE) then Field(xid, j - BUF_BASE) else 0
      ensures out == Stored(mem, BUF_BASE, FixedWords(xid))
    {
    }

    method WriteOptions(buffer: array<word>, kind: byte)
      requires buffer.Length == BUFFER_DEPTH && (kind == MSG_DISCOVER || kind == MSG_REQUEST)
      modifies buffer
      ensures buffer[..] == WithBytes(old(buffer[..]), 4 * BUF_BASE + OPTIONS_AT, OptionBytes(State(), kind))
    {
      hide WithBytes, ByteOf, Encoded;
      ghost var mem := buffer[..];
      ghost var p := 4 * BUF_BASE + OPTIONS_AT;
      OptionBytesAre(State(), kind);
      assert OptBytes(53, 1, [kind, 0, 0, 0]) == [53, 1, kind];
      assert OptBytes(END, 0, [0, 0, 0, 0]) == [END, 0];
      var off := Access.WriteOpt(buffer, BUF_BASE, OPTIONS_AT, 53, 1, [kind, 0, 0, 0]);
      if kind == MSG_DISCOVER {
        assert OptBytes(55, 4, [1, 3, 6, 15]) == [55, 4, 1, 3, 6, 15];
        off := Access.WriteOpt(buffer, BUF_BASE, off, 55, 4, [1, 3, 6, 15]);
        ghost var s: seq<byte> := [53, 1, kind] + [55, 4, 1, 3, 6, 15];
        WithBytesAppend(mem, p, [53, 1, kind], [55, 4, 1, 3, 6, 15], s);
        off := Access.WriteOpt(buffer, BUF_BASE, off, END, 0, [0, 0, 0, 0]);
        WithBytesAppend(mem, p, s, [END, 0], s + [END, 0]);
      } else {
        ghost var o, v := WordBytes(offered), WordBytes(server);
        assert OptBytes(50, 4, o) == [50, 4] + o && OptBytes(54, 4, v) == [54, 4] + v;
        off := Access.WriteOpt(buffer, BUF_BASE, off, 50, 4, WordBytes(offered));
        ghost var s: seq<byte> := [53, 1, kind] + ([50, 4] + o);
        WithBytesAppend(mem, p, [53, 1, kind], [50, 4] + o, s);
        off := Access.WriteOpt(buffer, BUF_BASE, off, 54, 4, WordBytes(server));
        ghost var t := s + ([54, 4] + v);
        WithBytesAppend(mem, p, s, [54, 4] + v, t);
        off := Access.WriteOpt(buffer, BUF_BASE, off, END, 0, [0, 0, 0, 0]);
        WithBytesAppend(mem, p, t, [END, 0], t + [END, 0]);
      }
    }

    lemma OptionBytesAre(c: Client, kind: byte)
      requires kind == MSG_DISCOVER || kind == MSG_REQUEST
      ensures kind == MSG_DISCOVER ==> OptionBytes(c, kind) == [53, 1, kind] + [55, 4, 1, 3, 6, 15] + [END, 0]
      ensures kind == MSG_REQUEST ==>
        OptionBytes(c, kind) ==
          [53, 1, kind] + ([50, 4] + WordBytes(c.offered)) + ([54, 4] + WordBytes(c.server)) + [END, 0]
    {
      hide ByteOf;
      var o := OptionsOf(c, kind);
      var o1 := o[1..];
      if kind == MSG_DISCOVER {
        assert o1 == [DhcpOption(55, [1, 3, 6, 15])] && o1[1..] == [];
        assert Encoded(o1) == [55, 4, 1, 3, 6, 15];
      } else {
        assert o1 == [DhcpOption(50, WordBytes(c.offered)), DhcpOption(54, WordBytes(c.server))];
        var o2 := o1[1..];
        assert o2 == [DhcpOption(54, WordBytes(c.server))] && o2[1..] == [];
        assert Encoded(o2) == [54, 4] + WordBytes(c.server);
        assert Encoded(o1) == ([50, 4] + WordBytes(c.offered)) + Encoded(o2);
      }
      assert Encoded(o) == [53, 1, kind] + Encoded(o1);
    }

    method Headers() returns (hdr: array<byte>)
      ensures fresh(hdr) && hdr[..] == FrameHeader()
    {
      hide Ip.Header;
      var ip := Ip.BuildHeader(28 + MSG_SIZE, 0, 64, Ip.PROTO_UDP, 0, BROADCAST_IP);
      var udp := UdpHeader();
      hdr := new byte[28];
      for i := 0 to 20
        invariant ip[..] == Ip.Header(28 + MSG_SIZE, 0, 64, Ip.PROTO_UDP, 0, BROADCAST_IP)
        invariant hdr[..i] == ip[..i]
      {
        hdr[i] := ip[i];
      }
      for i := 0 to 8
        invariant hdr[..20] == Ip.Header(28 + MSG_SIZE, 0, 64, Ip.PROTO_UDP, 0, BROADCAST_IP)
        invariant hdr[20..20 + i] == udp[..i]
      {
        hdr[20 + i] := udp[i];
      }
      assert hdr[..] == hdr[..20] + hdr[20..28];
    }

    /** dhcp_rx_process on a datagram to the client port; done raises the start signal. The ghost result is what the
        array for the server address held. */
    method Rx(frame: array<word>, payloadLen: u16) returns (done: bool, ghost stale: seq<byte>)
      requires 28 + payloadLen + 4 <= 4 * frame.Length && frame.Length >= 12
      modifies this
      ensures |stale| == 4
      ensures (State(), done) == RxStep(old(State()), ParseMessage(frame[..], 7, payloadLen, stale))
    {
      hide Scan;
      var srv := new byte[4];
      stale := srv[..];
      done := false;
      var len, out := Access.ReadOpt(frame, 7, payloadLen, 53);
      var kind := if len > 0 then out[0] else 0;
      if st == WaitOffer && kind == MSG_OFFER {
        offered := frame[11];
        len, out := Access.ReadOpt(frame, 7, payloadLen, 54);
        if len > 0 {
          CopyOver(srv, out);
          server := WordOf(srv[0], srv[1], srv[2], srv[3]);
        }
        st := Request;
      } else if st == WaitAck && kind == MSG_ACK {
        done := true;
        st := Done;
      }
    }

    static method CopyOver(srv: array<byte>, data: seq<byte>)
      requires srv.Length == 4 && |data| <= 4
      modifies srv
      ensures srv[..] == data + old(srv[..])[|data|..]
    {
      for i := 0 to |data|
        invariant forall j :: 0 <= j < 4 ==> srv[j] == if j < i then data[j] else old(srv[j])
      {
        srv[i] := data[i];
      }
    }
  }
}
