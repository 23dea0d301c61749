/** layer_udp.cpp: the port filter, and the gated builder of echo and HELLO frames; with the ARP frames of
    layer_arp.cpp it shares the transmit regions with. */
module Udp {
  import opened Bytes
  import opened Layout
  import opened Arp
  import opened Store
  import Ip

  const UDP_PORT: u16 := 8080
  const DHCP_CLIENT_PORT: u16 := 68
  const DEFAULT_LENGTH: u16 := 28
  const DEFAULT_TOTAL: u16 := 48
  const HELLO_IP: word := WordOf(192, 168, 100, 1)

  // ---------------------------------------------------------------- receiving

  datatype UdpRx = UdpRx(valid: bool, srcPort: u16, dstPort: u16, length: u16, payloadLen: u16)

  /** udp_rx_process on a staged frame. What passes the filter is never for the DHCP client, whose receive half is
      out of reach. */
  function ParseUdp(frame: seq<word>): (u: UdpRx)
    requires |frame| == FRAME_BUF_WORDS
    ensures u.valid ==> u.dstPort != DHCP_CLIENT_PORT && (u.length >= 8 ==> u.payloadLen == u.length - 8)
  {
    var h := ReadBytes(frame, 5, 8);
    var dst, len := U16Of(h[2], h[3]), U16Of(h[4], h[5]);
    UdpRx(dst == UDP_PORT, U16Of(h[0], h[1]), dst, len, if dst == UDP_PORT then (len + 0x1_0000 - 8) % 0x1_0000 else 0)
  }

  // ---------------------------------------------------------------- ARP frames

  /** An ARP body from the board: operation, target hardware and protocol address. */
  function ArpBody(op: byte, tha: seq<byte>, tpa: seq<byte>): (s: seq<byte>)
    requires |tha| == 6 && |tpa| == 4
    ensures |s| == 28
  {
    [0, 1, 8, 0, 6, 4, 0, op] + BOARD_MAC_BYTES + WordBytes(BOARD_IP) + tha + tpa
  }

  function ArpReq(r: TxReq, dst: mac): TxReq {
    r.(dst := dst, ethertype := ETHERTYPE_ARP, addr := TX_SCRATCH_BASE, len := 28, request := true)
  }

  function AskBuffer(mem: seq<word>, ip: word): (r: seq<word>)
    requires |mem| == BUFFER_DEPTH
    ensures |r| == BUFFER_DEPTH
  {
    Stored(mem, TX_SCRATCH_BASE, WordsOf(ArpBody(1, [0, 0, 0, 0, 0, 0], WordBytes(ip)), 7))
  }

  /** A received ARP body. */
  datatype ArpRx = ArpRx(opcode: u16, senderMac: mac, senderIp: word, targetIp: word, tha: seq<byte>, tpa: seq<byte>)

  function ParseArp(frame: seq<word>): ArpRx
    requires |frame| == FRAME_BUF_WORDS
  {
    var a := ReadBytes(frame, 0, 28);
    ArpRx(U16Of(a[6], a[7]), MacOf(a[8..14]), WordOf(a[14], a[15], a[16], a[17]), WordOf(a[24], a[25], a[26], a[27]),
          a[8..14], a[14..18])
  }

  predicate Asks(a: ArpRx) { a.opcode == 1 && a.targetIp == BOARD_IP }

  function AnswerBuffer(mem: seq<word>, a: ArpRx): (r: seq<word>)
    requires |mem| == BUFFER_DEPTH && |a.tha| == 6 && |a.tpa| == 4
    ensures |r| == BUFFER_DEPTH
  {
    Stored(mem, TX_SCRATCH_BASE, WordsOf(ArpBody(2, a.tha, a.tpa), 7))
  }

  /** The bytes of an Ethernet and IPv4 ARP message: operation, sender and target; RFC 826. */
  predicate ArpMessage(p: seq<byte>, op: u16, senderMac: mac, senderIp: word, targetMac: mac, targetIp: word) {
    && |p| == 28 && U16Of(p[0], p[1]) == 1 && U16Of(p[2], p[3]) == ETHERTYPE_IPV4 && p[4] == 6 && p[5] == 4
    && U16Of(p[6], p[7]) == op && MacOf(p[8..14]) == senderMac && Ip.WordAt(p, 14) == senderIp
    && MacOf(p[18..24]) == targetMac && Ip.WordAt(p, 24) == targetIp
  }

  lemma BodyIsMessage(op: byte, tha: seq<byte>, tpa: seq<byte>)
    requires |tha| == 6 && |tpa| == 4
    ensures ArpMessage(ArpBody(op, tha, tpa), op, BOARD_MAC, BOARD_IP, MacOf(tha), Ip.WordAt(tpa, 0))
  {
    hide WordOf, ByteOf, MacOf;
    var p := ArpBody(op, tha, tpa);
    BoardMacBytes();
    WordOfByteOf(BOARD_IP);
    assert p[8..14] == BOARD_MAC_BYTES && p[14..18] == WordBytes(BOARD_IP) && p[18..24] == tha && p[24..28] == tpa;
    FourAt(p, 14);
    FourAt(p, 24);
  }

  lemma FourAt(p: seq<byte>, i: nat)
    requires i + 4 <= |p|
    ensures Ip.WordAt(p, i) == Ip.WordAt(p[i..i + 4], 0)
  {
    hide WordOf;
  }

  /** The answer to a question, as it lies in the scratch region: the board as sender, the asker as target. */
  lemma AnswerReads(mem: seq<word>, frame: seq<word>)
    requires |mem| == BUFFER_DEPTH && |frame| == FRAME_BUF_WORDS
    ensures var (a, q) := (ParseArp(frame), ReadBytes(frame, 0, 28));
      && a.senderMac == MacOf(q[8..14]) && a.senderIp == Ip.WordAt(q, 14)
      && ArpMessage(ReadBytes(AnswerBuffer(mem, a), TX_SCRATCH_BASE, 28), 2, BOARD_MAC, BOARD_IP, a.senderMac,
                    a.senderIp)
  {
    hide WordOf, MacOf, MemByte, ArpBody, WordsOf, ArpMessage;
    var a, q := ParseArp(frame), ReadBytes(frame, 0, 28);
    BodyIsMessage(2, a.tha, a.tpa);
    var b := ArpBody(2, a.tha, a.tpa);
    ReadStored(mem, TX_SCRATCH_BASE, b, 7, 28);
    assert b[..28] == b;
    FourAt(q, 14);
    assert a.tpa == q[14..18];
  }

  /** The question for an address: the board as sender, an unknown target. */
  lemma QuestionReads(mem: seq<word>, ip: word)
    requires |mem| == BUFFER_DEPTH
    ensures ArpMessage(ReadBytes(AskBuffer(mem, ip), TX_SCRATCH_BASE, 28), 1, BOARD_MAC, BOARD_IP, 0, ip)
  {
    hide MacOf, MemByte, ArpBody, WordsOf, ArpMessage, ByteOf, WordOf;
    BodyIsMessage(1, [0, 0, 0, 0, 0, 0], WordBytes(ip));
    ZeroMac();
    WordOfByteOf(ip);
    var b := ArpBody(1, [0, 0, 0, 0, 0, 0], WordBytes(ip));
    ReadStored(mem, TX_SCRATCH_BASE, b, 7, 28);
    assert b[..28] == b;
  }

  lemma ZeroMac()
    ensures MacOf([0, 0, 0, 0, 0, 0]) == 0
  {
    var b: seq<byte> := [0, 0, 0, 0, 0, 0];
    assert b[..6] == b && b[..6][..5] == b[..5] && b[..5][..4] == b[..4] && b[..4][..3] == b[..3];
    assert b[..3][..2] == b[..2] && b[..2][..1] == b[..1] && b[..1][..0] == [];
    assert Number(b[..1]) == 0 && Number(b[..2]) == 0 && Number(b[..3]) == 0;
    assert Number(b[..4]) == 0 && Number(b[..5]) == 0;
  }

  class ArpLayer {
    static method BodyArray(op: byte, tha: seq<byte>, tpa: seq<byte>) returns (b: array<byte>)
      requires |tha| == 6 && |tpa| == 4
      ensures fresh(b) && b[..] == ArpBody(op, tha, tpa)
    {
      var s := ArpBody(op, tha, tpa);
      b := new byte[28](i requires 0 <= i < 28 => s[i]);
    }

    /** arp_send_request. */
    static method SendRequest(buffer: array<word>, reg: ReqRegister, ip: word)
      requires buffer.Length == BUFFER_DEPTH
      modifies buffer, reg
      ensures buffer[..] == AskBuffer(old(buffer[..]), ip) && reg.req == ArpReq(old(reg.req), BROADCAST_MAC)
    {
      hide ArpBody, WordsOf;
      var b := BodyArray(1, [0, 0, 0, 0, 0, 0], WordBytes(ip));
      StoreBytes(buffer, TX_SCRATCH_BASE, b, 7);
      reg.req := ArpReq(reg.req, BROADCAST_MAC);
    }

    /** arp_rx_process: learn the sender, answer a question about the board. */
    static method Process(frame: array<word>, buffer: array<word>, reg: ReqRegister, cache: ArpCache)
      requires frame != buffer && frame.Length == FRAME_BUF_WORDS && buffer.Length == BUFFER_DEPTH && cache.Valid()
      modifies buffer, reg, cache, cache.l1, cache.age, cache.l2
      ensures cache.Valid()
      ensures var a := ParseArp(old(frame[..]));
        && cache.Value() == Learn(old(cache.Value()), a.senderIp, a.senderMac)
        && buffer[..] == (if Asks(a) then AnswerBuffer(old(buffer[..]), a) else old(buffer[..]))
        && reg.req == (if Asks(a) then ArpReq(old(reg.req), a.senderMac) else old(reg.req))
    {
      hide ArpBody, WordsOf, MemByte;
      ghost var f := frame[..];
      var bytes := ReadBody(frame);
      var senderMac := MacOf(bytes[8..14]);
      var senderIp := WordOf(bytes[14], bytes[15], bytes[16], bytes[17]);
      var targetIp := WordOf(bytes[24], bytes[25], bytes[26], bytes[27]);
      cache.Update(senderIp, senderMac);
      if U16Of(bytes[6], bytes[7]) == 1 && targetIp == BOARD_IP {
        var b := BodyArray(2, bytes[8..14], bytes[14..18]);
        StoreBytes(buffer, TX_SCRATCH_BASE, b, 7);
        reg.req := ArpReq(reg.req, senderMac);
      }
    }

    static method ReadBody(frame: array<word>) returns (b: seq<byte>)
      requires frame.Length == FRAME_BUF_WORDS
      ensures b == ReadBytes(frame[..], 0, 28)
    {
      hide ByteOf;
      b := [];
      for i := 0 to 7
        invariant b == ReadBytes(frame[..], 0, 4 * i)
      {
        MemByteAt(frame[..], i, 0);
        MemByteAt(frame[..], i, 1);
        MemByteAt(frame[..], i, 2);
        MemByteAt(frame[..], i, 3);
        b := b + WordBytes(frame[i]);
      }
    }
  }

  // ---------------------------------------------------------------- sending

  /** A captured request waiting to be echoed. */
  datatype Pending = Pending(length: u16, total: u16, srcPort: u16, srcIp: word)

  /** What one call of udp_tx_process decides to send. */
  datatype Job = Job(echo: bool, length: u16, total: u16, id: word, port: u16, ip: word)

  /** The registers of udp_tx_process; its length registers are at their defaults between calls. */
  datatype UdpTx = UdpTx(time: word, ipId: word, arpPending: bool, pendingIp: word)

  const UDP_RESET: UdpTx := UdpTx(0, 0, false, 0)

  /** The pacing counter and the choice of a job; pacing is the HELLO interval. */
  function Choose(u: UdpTx, p: Option<Pending>, pacing: nat): (UdpTx, Option<Job>) {
    var t: word := (u.time + 1) % WRAP;
    var due := t >= pacing;
    var u' := if due then u.(time := 0, ipId := (u.ipId + 1) % WRAP) else u.(time := t);
    (u', if p.Some? then Some(Job(true, p.value.length, p.value.total, u'.ipId, p.value.srcPort, p.value.srcIp))
         else if due then Some(Job(false, DEFAULT_LENGTH, DEFAULT_TOTAL, u'.ipId, UDP_PORT, HELLO_IP))
         else None)
  }

  /** The registers after a run of calls, given what each finds captured. */
  function Chosen(u: UdpTx, ps: seq<Option<Pending>>, pacing: nat): UdpTx
    decreases |ps|
  {
    if ps == [] then u else Chosen(Choose(u, ps[0], pacing).0, ps[1..], pacing)
  }

  lemma {:induction false} Paced(u: UdpTx, ps: seq<Option<Pending>>, pacing: nat, k: nat, r: nat)
    requires u.time < pacing < WRAP && r < pacing && u.time + |ps| == k * pacing + r
    ensures var v := Chosen(u, ps, pacing); v.time == r && v.ipId == (u.ipId + k) % WRAP
    decreases |ps|
  {
    if ps == [] {
      Quotients(k, pacing, r);
    } else {
      var v := Choose(u, ps[0], pacing).0;
      if u.time + 1 < pacing {
        Paced(v, ps[1..], pacing, k, r);
      } else {
        Quotients(k, pacing, r);
        assert (k - 1) * pacing == k * pacing - pacing;
        Paced(v, ps[1..], pacing, k - 1, r);
        IdAfter(u.ipId, k - 1);
      }
    }
  }

  lemma Quotients(k: nat, pacing: nat, r: nat)
    requires r < pacing
    ensures k > 0 ==> k * pacing + r >= pacing
    ensures k == 0 ==> k * pacing + r < pacing
  {
    if k > 0 {
      assert k * pacing == (k - 1) * pacing + pacing;
    }
  }

  lemma IdAfter(id: word, k: nat)
    ensures ((id + 1) % WRAP + k) % WRAP == (id + k + 1) % WRAP
  {
  }

  /** Who is sent what, exactly, after any run of k whole intervals and r calls: a captured datagram is always echoed to
      where it came from; without one a HELLO goes out if and only if the interval ends in this call; and the
      identification counts the intervals, whatever was sent in them. */
  lemma PacedExactly(u: UdpTx, ps: seq<Option<Pending>>, p: Option<Pending>, pacing: nat, k: nat, r: nat)
    requires u.time < pacing < WRAP && r < pacing && u.time + |ps| == k * pacing + r
    ensures var (ends, job) := (r + 1 == pacing, Choose(Chosen(u, ps, pacing), p, pacing).1);
      && (p.Some? ==> job.Some? && job.value.echo && job.value.port == p.value.srcPort && job.value.ip == p.value.srcIp
                      && job.value.length == p.value.length && job.value.total == p.value.total)
      && (p.None? ==> (job.Some? <==> ends))
      && (p.None? && job.Some? ==> !job.value.echo && job.value.ip == HELLO_IP)
      && (job.Some? ==> job.value.id == if ends then (u.ipId + k + 1) % WRAP else (u.ipId + k) % WRAP)
  {
    hide Chosen;
    Paced(u, ps, pacing, k, r);
    IdNext(u.ipId + k, Chosen(u, ps, pacing).ipId);
  }

  lemma IdNext(n: nat, id: word)
    requires id == n % WRAP
    ensures (id + 1) % WRAP == (n + 1) % WRAP
  {
  }

  /** The HELLO destination is asked for once while unknown. */
  predicate AsksFirst(u: UdpTx, j: Job, m: Option<mac>) { m.None? && !j.echo && !u.arpPending }

  function AfterJob(u: UdpTx, j: Job, m: Option<mac>): UdpTx {
    if m.Some? then u.(arpPending := false)
    else if AsksFirst(u, j, m) then u.(arpPending := true, pendingIp := j.ip) else u
  }

  function HeaderOf(j: Job): (h: seq<byte>)
    ensures |h| == 28
  {
    Ip.Header(j.total, j.id % 0x1_0000, 128, Ip.PROTO_UDP, BOARD_IP, j.ip)
    + [Hi(UDP_PORT), Lo(UDP_PORT), Hi(j.port), Lo(j.port), Hi(j.length), Lo(j.length), 0, 0]
  }

  /** "HELLO PERFXLAB" */
  const HELLO_WORDS: seq<word> := [0x48454C4C, 0x4F202020, 0x20202020, 0x50455246, 0x584C4142]

  function JobBuffer(mem: seq<word>, u: UdpTx, j: Job, m: Option<mac>): (r: seq<word>)
    requires |mem| == BUFFER_DEPTH
    ensures |r| == BUFFER_DEPTH
  {
    var m0 := if AsksFirst(u, j, m) then AskBuffer(mem, j.ip) else mem;
    var m1 := Stored(m0, TX_UDP_BASE, WordsOf(HeaderOf(j), 7));
    if j.echo then m1 else Stored(m1, TX_UDP_BASE + 7, HELLO_WORDS)
  }

  function JobReq(r: TxReq, j: Job, m: Option<mac>): TxReq
    requires j.length <= 1004
  {
    r.(dst := if m.Some? then m.value else BROADCAST_MAC, ethertype := ETHERTYPE_IPV4,
       addr := TX_UDP_BASE, len := 20 + j.length, request := true)
  }

  /** The ARP request a HELLO to an unknown destination raises is overwritten by the HELLO itself in the same call:
      whatever udp_tx_process asks the MAC to send, it is an IPv4 frame from the UDP region. */
  lemma ArpRequestOverwritten(r: TxReq, j: Job, m: Option<mac>)
    requires j.length <= 1004
    ensures JobReq(ArpReq(r, BROADCAST_MAC), j, m) == JobReq(r, j, m)
    ensures JobReq(r, j, m).ethertype != ETHERTYPE_ARP && JobReq(r, j, m).addr != TX_SCRATCH_BASE
  {
  }

  /** The bytes of a datagram from the board: an accepted header to the destination, the ports, the length, no checksum,
      and the payload; RFC 768. */
  predicate Datagram(p: seq<byte>, dst: word, id: u16, port: u16, payload: seq<byte>) {
    && |payload| <= 1004 && |p| == 28 + |payload| && Ip.Accepts(p[..20]) && p[28..] == payload
    && Ip.Parse(p[..20]).(valid := true) == Ip.IpRx(true, Ip.PROTO_UDP, 28 + |payload|, id, 128, BOARD_IP, dst)
    && U16Of(p[20], p[21]) == UDP_PORT && U16Of(p[22], p[23]) == port && U16Of(p[24], p[25]) == 8 + |payload|
    && p[26] == p[27] == 0
  }

  lemma DatagramBuilt(j: Job, payload: seq<byte>)
    requires |payload| <= 996 && j.length == 8 + |payload| && j.total == 28 + |payload|
    ensures Datagram(HeaderOf(j) + payload, j.ip, j.id % 0x1_0000, j.port, payload)
  {
    hide Ip.Header, Ip.Accepts, Ip.Parse;
    var h := HeaderOf(j);
    var p := h + payload;
    assert p[..20] == h[..20] == Ip.Header(j.total, j.id % 0x1_0000, 128, Ip.PROTO_UDP, BOARD_IP, j.ip);
    assert p[28..] == payload;
    Ip.HeaderAccepted(j.total, j.id % 0x1_0000, 128, Ip.PROTO_UDP, BOARD_IP, j.ip);
  }

  /** An echo frame is a datagram from the board to the sender's address and port with the bytes captured in the
      region. */
  lemma EchoCarries(mem: seq<word>, u: UdpTx, j: Job, m: Option<mac>)
    requires |mem| == BUFFER_DEPTH && j.echo && 8 <= j.length <= 1004 && j.total == 20 + j.length
    ensures Datagram(ReadBytes(JobBuffer(mem, u, j, m), TX_UDP_BASE, 20 + j.length), j.ip, j.id % 0x1_0000, j.port,
                     ReadBytes(mem, TX_UDP_BASE + 7, j.length - 8))
  {
    hide WordsOf, HeaderOf, Datagram, MemByte, ArpBody;
    var h, e := HeaderOf(j), ReadBytes(mem, TX_UDP_BASE + 7, j.length - 8);
    var out := JobBuffer(mem, u, j, m);
    ReadStored(mem, TX_UDP_BASE, h, 7, 28);
    ReadApart(mem, TX_UDP_BASE, WordsOf(h, 7), TX_UDP_BASE + 7, j.length - 8);
    DatagramBuilt(j, e);
    assert h[..28] == h;
    assert ReadBytes(out, TX_UDP_BASE, 20 + j.length)
        == ReadBytes(out, TX_UDP_BASE, 28) + ReadBytes(out, TX_UDP_BASE + 7, j.length - 8);
  }

  /** "HELLO       PERFXLAB" in ASCII. */
  const HELLO_TEXT: seq<byte> := [0x48, 0x45, 0x4C, 0x4C, 0x4F, 0x20, 0x20, 0x20, 0x20, 0x20,
                                  0x20, 0x20, 0x50, 0x45, 0x52, 0x46, 0x58, 0x4C, 0x41, 0x42]

  /** A HELLO frame is a datagram from the board's to the same port of the HELLO address with the text. */
  lemma HelloCarries(mem: seq<word>, u: UdpTx, p: Option<Pending>, pacing: nat, m: Option<mac>)
    requires |mem| == BUFFER_DEPTH && p == None && Choose(u, p, pacing).1.Some?
    ensures var j := Choose(u, p, pacing).1.value;
      Datagram(ReadBytes(JobBuffer(mem, u, j, m), TX_UDP_BASE, 48), HELLO_IP, j.id % 0x1_0000, UDP_PORT, HELLO_TEXT)
  {
    hide WordsOf, HeaderOf, Datagram, MemByte, ArpBody;
    var j := Choose(u, p, pacing).1.value;
    var h := HeaderOf(j);
    var asked := if AsksFirst(u, j, m) then AskBuffer(mem, j.ip) else mem;
    var m1 := Stored(asked, TX_UDP_BASE, WordsOf(h, 7));
    var out := JobBuffer(mem, u, j, m);
    ReadStored(asked, TX_UDP_BASE, h, 7, 28);
    ReadApart(m1, TX_UDP_BASE + 7, HELLO_WORDS, TX_UDP_BASE, 28);
    HelloWords();
    ReadStored(m1, TX_UDP_BASE + 7, HELLO_TEXT, 5, 20);
    DatagramBuilt(j, HELLO_TEXT);
    assert h[..28] == h && HELLO_TEXT[..20] == HELLO_TEXT;
    assert ReadBytes(out, TX_UDP_BASE, 48) == ReadBytes(out, TX_UDP_BASE, 28) + ReadBytes(out, TX_UDP_BASE + 7, 20);
  }

  lemma HelloWords()
    ensures WordsOf(HELLO_TEXT, 5) == HELLO_WORDS
  {
  }

  class UdpSender {
    var time: word
    var ipId: word
    var arpPending: bool
    var pendingIp: word

    ghost function Value(): UdpTx
      reads this
    {
      UdpTx(time, ipId, arpPending, pendingIp)
    }

    constructor ()
      ensures Value() == UDP_RESET
    {
      time, ipId, arpPending, pendingIp := 0, 0, false, 0;
    }

    /** udp_tx_process out of reset. */
    method Process(buffer: array<word>, reg: ReqRegister, cache: ArpCache, p: Option<Pending>, pacing: nat)
      requires buffer.Length == BUFFER_DEPTH && cache.Valid() && (p.Some? ==> p.value.length <= 1004)
      modifies this, buffer, reg, cache, cache.l1, cache.age, cache.l2
      ensures cache.Valid()
      ensures var (u, job) := Choose(old(Value()), p, pacing);
        if job.None? then
          && Value() == u && buffer[..] == old(buffer[..]) && reg.req == old(reg.req)
          && cache.Value() == old(cache.Value())
        else
          var j := job.value;
          var m := Answer(old(cache.Value()), j.ip);
          && Value() == AfterJob(u, j, m)
          && buffer[..] == JobBuffer(old(buffer[..]), u, j, m)
          && reg.req == JobReq(old(reg.req), j, m)
          && cache.Value() == AfterLookup(old(cache.Value()), j.ip)
    {
      hide JobBuffer, JobReq, Answer, AfterLookup;
      time := (time + 1) % WRAP;
      var due := time >= pacing;
      if due {
        time, ipId := 0, (ipId + 1) % WRAP;
      }
      if p.None? && !due {
        return;
      }
      var j := if p.Some? then Job(true, p.value.length, p.value.total, ipId, p.value.srcPort, p.value.srcIp)
               else Job(false, DEFAULT_LENGTH, DEFAULT_TOTAL, ipId, UDP_PORT, HELLO_IP);
      var m := cache.Lookup(j.ip);
      Perform(buffer, reg, j, m);
    }

    /** The frame for one job. */
    method Perform(buffer: array<word>, reg: ReqRegister, j: Job, m: Option<mac>)
      requires buffer.Length == BUFFER_DEPTH && j.length <= 1004
      modifies this, buffer, reg
      ensures Value() == AfterJob(old(Value()), j, m)
      ensures buffer[..] == JobBuffer(old(buffer[..]), old(Value()), j, m)
      ensures reg.req == JobReq(old(reg.req), j, m)
    {
      hide WordsOf, HeaderOf, AskBuffer, Stored;
      if m.Some? {
        arpPending := false;
      } else if !j.echo && !arpPending {
        ArpLayer.SendRequest(buffer, reg, j.ip);
        arpPending, pendingIp := true, j.ip;
      }
      var h := HeaderArray(j);
      StoreBytes(buffer, TX_UDP_BASE, h, 7);
      if !j.echo {
        WriteHello(buffer);
      }
      reg.req := reg.req.(dst := if m.Some? then m.value else BROADCAST_MAC, ethertype := ETHERTYPE_IPV4,
                          addr := TX_UDP_BASE, len := 20 + j.length, request := true);
    }

    /** The HELLO text. */
    static method WriteHello(buffer: array<word>)
      requires buffer.Length == BUFFER_DEPTH
      modifies buffer
      ensures buffer[..] == Stored(old(buffer[..]), TX_UDP_BASE + 7, HELLO_WORDS)
    {
      buffer[TX_UDP_BASE + 7], buffer[TX_UDP_BASE + 8] := 0x48454C4C, 0x4F202020;
      buffer[TX_UDP_BASE + 9], buffer[TX_UDP_BASE + 10] := 0x20202020, 0x50455246;
      buffer[TX_UDP_BASE + 11] := 0x584C4142;
    }

    method HeaderArray(j: Job) returns (h: array<byte>)
      ensures fresh(h) && h[..] == HeaderOf(j)
    {
      hide Ip.Header;
      var ip := Ip.BuildHeader(j.total, j.id % 0x1_0000, 128, Ip.PROTO_UDP, BOARD_IP, j.ip);
      var s := ip[..] + [Hi(UDP_PORT), Lo(UDP_PORT), Hi(j.port), Lo(j.port), Hi(j.length), Lo(j.length), 0, 0];
      h := new byte[28](i requires 0 <= i < 28 => s[i]);
    }
  }
}
