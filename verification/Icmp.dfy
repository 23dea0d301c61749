/** The echo responder of layer_icmp.cpp: the reply is built in the scratch region by copying the request, patching
    its first word, moving it up five words in place and putting an IP header below. */
module Icmp {
  import opened Bytes
  import opened Checksum
  import opened Layout
  import opened Arp
  import opened Store
  import Ip

  /** First word of the message in the staged frame, after 20 bytes of IP header. */
  const ICMP_BASE: nat := 5
  const ECHO_REQUEST: byte := 8
  const ECHO_REPLY: byte := 0

  /** The bytes of the received message. */
  function Message(frame: seq<word>, len: nat): (m: seq<byte>)
    requires 4 * ICMP_BASE + len <= 4 * |frame|
    ensures |m| == len
  {
    ReadBytes(frame, ICMP_BASE, len)
  }

  /** A first word with the reply type, the received code and a checksum. */
  function HeadWord(w0: word, c: u16): word {
    WordOf(ECHO_REPLY, ByteOf(w0, 1), Hi(c), Lo(c))
  }

  /** The longest message the checksum array has room for. */
  const MAX_MESSAGE: nat := 256

  /** The words of the reply: all but the first are the words of the request. */
  function ReplyWords(frame: seq<word>, len: nat, c: u16): (r: seq<word>)
    requires 4 * ICMP_BASE + len <= 4 * |frame|
    ensures |r| == (len + 3) / 4
  {
    if len == 0 then [] else [HeadWord(frame[ICMP_BASE], c)] + frame[ICMP_BASE + 1..ICMP_BASE + (len + 3) / 4]
  }

  /** The words patched in the scratch region; the first is written even for an empty message. */
  function Patched(frame: seq<word>, len: nat, c: u16): (r: seq<word>)
    requires 4 * ICMP_BASE + len <= 4 * |frame| && |frame| > ICMP_BASE
    ensures |r| == if len == 0 then 1 else (len + 3) / 4
  {
    if len == 0 then [HeadWord(frame[ICMP_BASE], c)] else ReplyWords(frame, len, c)
  }

  /** The request with reply type and a zeroed checksum. */
  function Zeroed(m: seq<byte>): seq<byte>
    requires |m| >= 4
  {
    [ECHO_REPLY, m[1], 0, 0] + m[4..]
  }

  /** The checksum over the patched words, cut to the message's length. */
  function ReplyChecksum(frame: seq<word>, len: nat): u16
    requires 4 * ICMP_BASE + len <= 4 * |frame|
  {
    Check(Sum16(ReadBytes(ReplyWords(frame, len, 0), 0, len)))
  }

  /** For a message with a checksum field it is the checksum of the request with type and checksum cleared. */
  lemma ChecksumOfZeroed(frame: seq<word>, len: nat)
    requires 4 <= len && 4 * ICMP_BASE + len <= 4 * |frame|
    ensures ReplyChecksum(frame, len) == Check(Sum16(Zeroed(Message(frame, len))))
  {
    hide ReplyWords, Message, Check, Sum16, Hi, Lo;
    var w := ReplyWords(frame, len, 0);
    assert w[0..0 + (len + 3) / 4] == w;
    ReplyBytes(w, 0, frame, len, 0);
    ZeroBytes();
  }

  lemma ZeroBytes()
    ensures Hi(0) == 0 && Lo(0) == 0
  {
  }

  /** The bytes of the reply words lying anywhere in a memory. */
  lemma ReplyBytes(mem: seq<word>, base: nat, frame: seq<word>, len: nat, c: u16)
    requires 4 <= len && 4 * ICMP_BASE + len <= 4 * |frame| && base + (len + 3) / 4 <= |mem|
    requires mem[base..base + (len + 3) / 4] == ReplyWords(frame, len, c)
    ensures ReadBytes(mem, base, len)
         == [ECHO_REPLY, Message(frame, len)[1], Hi(c), Lo(c)] + Message(frame, len)[4..]
  {
    var m := Message(frame, len);
    var r := ReplyWords(frame, len, c);
    ByteOfWordOf(ECHO_REPLY, ByteOf(frame[ICMP_BASE], 1), Hi(c), Lo(c));
    hide ByteOf, WordOf;
    forall i | 0 <= i < len
      ensures ReadBytes(mem, base, len)[i] == ([ECHO_REPLY, m[1], Hi(c), Lo(c)] + m[4..])[i]
    {
      assert mem[base + i / 4] == r[i / 4];
      if i >= 4 {
        assert r[i / 4] == frame[ICMP_BASE + i / 4];
      }
    }
  }

  lemma Masks(a: byte, b: byte, c: byte, d: byte)
    ensures WordOf(a, b, c, d) % 0x100_0000 == WordOf(0, b, c, d)
    ensures WordOf(0, b, c, d) / 0x1_0000 * 0x1_0000 == WordOf(0, b, 0, 0)
  {
    assert WordOf(0, b, c, d) / 0x1_0000 == b;
  }

  /** Clearing type and checksum of the first word, as the masks do. */
  lemma MaskedHead(w0: word)
    ensures (w0 % 0x100_0000 + ECHO_REPLY * 0x100_0000) / 0x1_0000 * 0x1_0000 == HeadWord(w0, 0)
    ensures HeadWord(w0, 0) / 0x1_0000 * 0x1_0000 == HeadWord(w0, 0)
  {
    hide ByteOf;
    WordOfByteOf(w0);
    Masks(ByteOf(w0, 0), ByteOf(w0, 1), ByteOf(w0, 2), ByteOf(w0, 3));
  }

  lemma FilledHead(w0: word, c: u16)
    ensures HeadWord(w0, 0) + c == HeadWord(w0, c)
  {
    hide ByteOf;
  }

  /** Stored words read back as they would alone. */
  lemma StoredReads(mem: seq<word>, base: nat, w: seq<word>, len: nat)
    requires base + |w| <= |mem| && len <= 4 * |w|
    ensures ReadBytes(Stored(mem, base, w), base, len) == ReadBytes(w, 0, len)
  {
    hide ByteOf;
    var m := Stored(mem, base, w);
    forall i | 0 <= i < len ensures MemByte(m, 4 * base + i) == MemByte(w, i) {
    }
  }

  lemma StoredSlice(mem: seq<word>, base: nat, w: seq<word>, n: nat)
    requires base + |w| <= |mem| && n <= |w|
    ensures Stored(mem, base, w)[base..base + n] == w[..n]
  {
  }

  /** What was patched in place is covered by the moved message and the header. */
  lemma PatchCovered(mem: seq<word>, p: seq<word>, w: seq<word>, h: seq<word>)
    requires |mem| == BUFFER_DEPTH && |w| <= MAX_MESSAGE / 4 && |h| == 5
    requires |w| <= |p| <= |w| + 1 && w == p[..|w|]
    ensures Stored(Stored(Stored(mem, TX_SCRATCH_BASE, p), TX_SCRATCH_BASE + 5, w), TX_SCRATCH_BASE, h)
         == Stored(Stored(mem, TX_SCRATCH_BASE + 5, w), TX_SCRATCH_BASE, h)
  {
  }

  class Responder {
    /** Copy the message into the scratch region. */
    static method CopyMessage(frame: array<word>, buffer: array<word>, n: nat)
      requires frame != buffer && frame.Length == FRAME_BUF_WORDS && buffer.Length == BUFFER_DEPTH
          && n <= MAX_MESSAGE / 4
      modifies buffer
      ensures buffer[..] == Stored(old(buffer[..]), TX_SCRATCH_BASE, frame[ICMP_BASE..ICMP_BASE + n])
    {
      for i := 0 to n
        invariant buffer[..] ==
          old(buffer[..TX_SCRATCH_BASE]) + frame[ICMP_BASE..ICMP_BASE + i] + old(buffer[TX_SCRATCH_BASE + i..])
      {
        buffer[TX_SCRATCH_BASE + i] := frame[ICMP_BASE + i];
      }
    }

    /** The first word with the type answered and the checksum cleared. */
    static method ClearHead(frame: array<word>, buffer: array<word>)
      requires frame != buffer && frame.Length == FRAME_BUF_WORDS && buffer.Length == BUFFER_DEPTH
      modifies buffer
      ensures buffer[..] == old(buffer[..])[TX_SCRATCH_BASE := HeadWord(frame[ICMP_BASE], 0)]
    {
      hide HeadWord;
      MaskedHead(frame[ICMP_BASE]);
      var w0 := frame[ICMP_BASE];
      w0 := w0 % 0x100_0000 + ECHO_REPLY * 0x100_0000;
      buffer[TX_SCRATCH_BASE] := w0;
      buffer[TX_SCRATCH_BASE] := buffer[TX_SCRATCH_BASE] / 0x1_0000 * 0x1_0000;
    }

    /** The message copied, its type answered, its checksum cleared. */
    static method CopyCleared(frame: array<word>, buffer: array<word>, len: u16)
      requires frame != buffer && frame.Length == FRAME_BUF_WORDS && buffer.Length == BUFFER_DEPTH && len <= MAX_MESSAGE
      modifies buffer
      ensures buffer[..] == Stored(old(buffer[..]), TX_SCRATCH_BASE, Patched(frame[..], len, 0))
    {
      hide HeadWord;
      CopyMessage(frame, buffer, (len + 3) / 4);
      ClearHead(frame, buffer);
    }

    /** The checksum put into a first word that has none. */
    static method FillHead(buffer: array<word>, ghost w0: word, c: u16)
      requires buffer.Length == BUFFER_DEPTH && buffer[TX_SCRATCH_BASE] == HeadWord(w0, 0)
      modifies buffer
      ensures buffer[..] == old(buffer[..])[TX_SCRATCH_BASE := HeadWord(w0, c)]
    {
      hide HeadWord;
      MaskedHead(w0);
      FilledHead(w0, c);
      var w := buffer[TX_SCRATCH_BASE];
      buffer[TX_SCRATCH_BASE] := w / 0x1_0000 * 0x1_0000 + c;
    }

    /** Copy the message, answer its type, insert the checksum. */
    static method PatchCopy(frame: array<word>, buffer: array<word>, len: u16)
      requires frame != buffer && frame.Length == FRAME_BUF_WORDS && buffer.Length == BUFFER_DEPTH && len <= MAX_MESSAGE
      modifies buffer
      ensures buffer[..] == Stored(old(buffer[..]), TX_SCRATCH_BASE,
                                   Patched(frame[..], len, ReplyChecksum(frame[..], len)))
    {
      hide HeadWord, Check, Sum16, MemByte;
      CopyCleared(frame, buffer, len);
      StoredReads(old(buffer[..]), TX_SCRATCH_BASE, Patched(frame[..], len, 0), len);
      var c := MessageChecksum(buffer, len);
      FillHead(buffer, frame[ICMP_BASE], c);
    }

    /** The checksum over the message bytes in the scratch region. */
    static method MessageChecksum(buffer: array<word>, len: u16) returns (c: u16)
      requires buffer.Length == BUFFER_DEPTH && len <= MAX_MESSAGE
      ensures c == Check(Sum16(ReadBytes(buffer[..], TX_SCRATCH_BASE, len)))
    {
      hide Check, Sum16, MemByte;
      var csumBuf := UnpackWords(buffer, (len + 3) / 4);
      assert csumBuf[..len] == ReadBytes(buffer[..], TX_SCRATCH_BASE, len);
      c := IcmpChecksum(csumBuf, len);
    }

    /** n words of the scratch region as bytes. */
    static method UnpackWords(buffer: array<word>, n: nat) returns (b: array<byte>)
      requires buffer.Length == BUFFER_DEPTH && n <= MAX_MESSAGE / 4
      ensures b.Length == MAX_MESSAGE && fresh(b)
      ensures forall j :: 0 <= j < 4 * n ==> b[j] == MemByte(buffer[..], 4 * TX_SCRATCH_BASE + j)
    {
      hide ByteOf, MemByte;
      b := new byte[MAX_MESSAGE];
      for i := 0 to n
        invariant forall j :: 0 <= j < 4 * i ==> b[j] == MemByte(buffer[..], 4 * TX_SCRATCH_BASE + j)
      {
        var w := buffer[TX_SCRATCH_BASE + i];
        MemByteAt(buffer[..], TX_SCRATCH_BASE + i, 0);
        MemByteAt(buffer[..], TX_SCRATCH_BASE + i, 1);
        MemByteAt(buffer[..], TX_SCRATCH_BASE + i, 2);
        MemByteAt(buffer[..], TX_SCRATCH_BASE + i, 3);
        b[4 * i], b[4 * i + 1] := ByteOf(w, 0), ByteOf(w, 1);
        b[4 * i + 2], b[4 * i + 3] := ByteOf(w, 2), ByteOf(w, 3);
      }
    }

    /** Moving n words up by five within one region, last word first. */
    static method ShiftUp(buffer: array<word>, n: nat)
      requires buffer.Length == BUFFER_DEPTH && n <= MAX_MESSAGE / 4
      modifies buffer
      ensures buffer[..]
           == Stored(old(buffer[..]), TX_SCRATCH_BASE + 5, old(buffer[TX_SCRATCH_BASE..TX_SCRATCH_BASE + n]))
    {
      var i := n;
      while i > 0
        invariant 0 <= i <= n
        invariant forall j :: 0 <= j < TX_SCRATCH_BASE + 5 + i ==> buffer[j] == old(buffer[j])
        invariant forall j :: TX_SCRATCH_BASE + 5 + i <= j < TX_SCRATCH_BASE + 5 + n ==> buffer[j] == old(buffer[j - 5])
        invariant forall j :: TX_SCRATCH_BASE + 5 + n <= j < BUFFER_DEPTH ==> buffer[j] == old(buffer[j])
      {
        i := i - 1;
        buffer[TX_SCRATCH_BASE + 5 + i] := buffer[TX_SCRATCH_BASE + i];
      }
    }

    /** icmp_rx_process: build the reply to an echo request and ask for it to be sent; anything else is ignored. */
    static method Process(ip: Ip.IpRx, frame: array<word>, buffer: array<word>, reg: ReqRegister, cache: ArpCache)
      requires frame != buffer && frame.Length == FRAME_BUF_WORDS && buffer.Length == BUFFER_DEPTH
      requires ip.valid && ip.protocol == Ip.PROTO_ICMP
      requires Answers(frame[..]) ==> 20 <= ip.totalLen <= 20 + MAX_MESSAGE
      requires cache.Valid()
      modifies buffer, reg, cache, cache.l1, cache.age, cache.l2
      ensures cache.Valid()
      ensures !Answers(old(frame[..])) ==>
        buffer[..] == old(buffer[..]) && reg.req == old(reg.req) && cache.Value() == old(cache.Value())
      ensures Answers(old(frame[..])) ==>
        && buffer[..] == ReplyBuffer(old(buffer[..]), old(frame[..]), ip)
        && reg.req == ReplyReq(old(reg.req), Answer(old(cache.Value()), ip.srcIp), ip)
        && cache.Value() == AfterLookup(old(cache.Value()), ip.srcIp)
    {
      hide ReplyBuffer, Answer, AfterLookup;
      var w := frame[ICMP_BASE];
      var icmpType, icmpCode := ByteOf(w, 0), ByteOf(w, 1);
      if icmpType == ECHO_REQUEST && icmpCode == 0 {
        Assemble(ip, frame, buffer);
        var m := cache.Lookup(ip.srcIp);
        reg.req := reg.req.(dst := if m.Some? then m.value else BROADCAST_MAC, ethertype := ETHERTYPE_IPV4,
                            addr := TX_SCRATCH_BASE, len := ip.totalLen, request := true);
      }
    }

    /** The reply in the buffer: copy and patch, move up, header below. */
    static method Assemble(ip: Ip.IpRx, frame: array<word>, buffer: array<word>)
      requires frame != buffer && frame.Length == FRAME_BUF_WORDS && buffer.Length == BUFFER_DEPTH
      requires 20 <= ip.totalLen <= 20 + MAX_MESSAGE
      modifies buffer
      ensures buffer[..] == ReplyBuffer(old(buffer[..]), frame[..], ip)
    {
      hide HeadWord, Check, ReplyChecksum, Ip.Header, ReplyWords, WordsOf, Stored;
      var len: u16 := ip.totalLen - 20;
      PatchCopy(frame, buffer, len);
      ghost var c := ReplyChecksum(frame[..], len);
      ghost var p, r := Patched(frame[..], len, c), ReplyWords(frame[..], len, c);
      StoredSlice(old(buffer[..]), TX_SCRATCH_BASE, p, (len + 3) / 4);
      ShiftUp(buffer, (len + 3) / 4);
      var hdr := Ip.BuildHeader(20 + len, 0, 128, Ip.PROTO_ICMP, BOARD_IP, ip.srcIp);
      StoreBytes(buffer, TX_SCRATCH_BASE, hdr, 5);
      PatchCovered(old(buffer[..]), p, r, WordsOf(hdr[..], 5));
    }
  }

  predicate Answers(frame: seq<word>)
    requires |frame| == FRAME_BUF_WORDS
  {
    ByteOf(frame[ICMP_BASE], 0) == ECHO_REQUEST && ByteOf(frame[ICMP_BASE], 1) == 0
  }

  /** The buffer after copy, shift and header: the reply words behind the header. */
  function ReplyBuffer(mem: seq<word>, frame: seq<word>, ip: Ip.IpRx): (r: seq<word>)
    requires |mem| == BUFFER_DEPTH && |frame| == FRAME_BUF_WORDS && 20 <= ip.totalLen <= 20 + MAX_MESSAGE
    ensures |r| == BUFFER_DEPTH
  {
    var len := ip.totalLen - 20;
    Stored(Stored(mem, TX_SCRATCH_BASE + 5, ReplyWords(frame, len, ReplyChecksum(frame, len))), TX_SCRATCH_BASE,
           WordsOf(Ip.Header(ip.totalLen, 0, 128, Ip.PROTO_ICMP, BOARD_IP, ip.srcIp), 5))
  }

  function ReplyReq(r: TxReq, m: Option<mac>, ip: Ip.IpRx): TxReq {
    r.(dst := if m.Some? then m.value else BROADCAST_MAC, ethertype := ETHERTYPE_IPV4,
       addr := TX_SCRATCH_BASE, len := ip.totalLen, request := true)
  }

  /** A reply to a message as it should lie in the buffer: a header the receive check accepts, from the board to the
      sender, then the request with only type and checksum changed, verifying, and no other word written. */
  predicate IsReply(out: seq<word>, mem: seq<word>, m: seq<byte>, sender: word)
    requires |out| == |mem| == BUFFER_DEPTH && 4 <= |m| <= MAX_MESSAGE
  {
    hide Ip.Accepts, Ip.Parse, Sum16, Check, MemByte;
    var hdr := ReadBytes(out, TX_SCRATCH_BASE, 20);
    var reply := ReadBytes(out, TX_SCRATCH_BASE + 5, |m|);
    && Ip.Accepts(hdr)
    && Ip.Parse(hdr).(valid := true) == Ip.IpRx(true, Ip.PROTO_ICMP, 20 + |m|, 0, 128, BOARD_IP, sender)
    && reply[0] == ECHO_REPLY && reply[1] == m[1] && reply[4..] == m[4..]
    && Check(Sum16(reply)) == 0
    && forall j :: 0 <= j < BUFFER_DEPTH && !(TX_SCRATCH_BASE <= j < TX_SCRATCH_BASE + 5 + (|m| + 3) / 4)
         ==> out[j] == mem[j]
  }

  predicate Answered(mem: seq<word>, frame: seq<word>, ip: Ip.IpRx)
    requires |mem| == BUFFER_DEPTH && |frame| == FRAME_BUF_WORDS && 24 <= ip.totalLen <= 20 + MAX_MESSAGE
  {
    hide ReplyBuffer, Message, IsReply;
    IsReply(ReplyBuffer(mem, frame, ip), mem, Message(frame, ip.totalLen - 20), ip.srcIp)
  }

  /** Every echo request of 4 to 256 ICMP bytes, odd lengths included, is replied to as it should be. */
  lemma PingReply(mem: seq<word>, frame: seq<word>, ip: Ip.IpRx)
    requires |mem| == BUFFER_DEPTH && |frame| == FRAME_BUF_WORDS && 24 <= ip.totalLen <= 20 + MAX_MESSAGE
    requires Answers(frame)
    ensures Answered(mem, frame, ip)
  {
    hide Ip.Header, ReplyChecksum, ReplyBuffer, Ip.Accepts, Ip.Parse, Check;
    ReplyLayout(mem, frame, ip);
    Ip.HeaderAccepted(ip.totalLen, 0, 128, Ip.PROTO_ICMP, BOARD_IP, ip.srcIp);
    ChecksumOfZeroed(frame, ip.totalLen - 20);
    ReplyVerifies(Message(frame, ip.totalLen - 20));
    ReplyConfined(mem, frame, ip);
  }

  lemma ReplyLayout(mem: seq<word>, frame: seq<word>, ip: Ip.IpRx)
    requires |mem| == BUFFER_DEPTH && |frame| == FRAME_BUF_WORDS && 24 <= ip.totalLen <= 20 + MAX_MESSAGE
    ensures var m := Message(frame, ip.totalLen - 20);
      var c := ReplyChecksum(frame, ip.totalLen - 20);
      var out := ReplyBuffer(mem, frame, ip);
      && ReadBytes(out, TX_SCRATCH_BASE, 20) == Ip.Header(ip.totalLen, 0, 128, Ip.PROTO_ICMP, BOARD_IP, ip.srcIp)
      && ReadBytes(out, TX_SCRATCH_BASE + 5, ip.totalLen - 20) == [ECHO_REPLY, m[1], Hi(c), Lo(c)] + m[4..]
  {
    hide Ip.Header, ReplyChecksum, ReplyWords, WordsOf, Message;
    var len := ip.totalLen - 20;
    var c := ReplyChecksum(frame, len);
    var w := ReplyWords(frame, len, c);
    var h := Ip.Header(ip.totalLen, 0, 128, Ip.PROTO_ICMP, BOARD_IP, ip.srcIp);
    var m2 := Stored(mem, TX_SCRATCH_BASE + 5, w);
    ReadStored(m2, TX_SCRATCH_BASE, h, 5, 20);
    assert h[..20] == h;
    ReadApart(m2, TX_SCRATCH_BASE, WordsOf(h, 5), TX_SCRATCH_BASE + 5, len);
    assert m2[TX_SCRATCH_BASE + 5..TX_SCRATCH_BASE + 5 + (len + 3) / 4] == w;
    ReplyBytes(m2, TX_SCRATCH_BASE + 5, frame, len, c);
  }

  lemma ReplyConfined(mem: seq<word>, frame: seq<word>, ip: Ip.IpRx)
    requires |mem| == BUFFER_DEPTH && |frame| == FRAME_BUF_WORDS && 20 <= ip.totalLen <= 20 + MAX_MESSAGE
    ensures var end := TX_SCRATCH_BASE + 5 + (ip.totalLen - 20 + 3) / 4;
      forall j :: 0 <= j < BUFFER_DEPTH && !(TX_SCRATCH_BASE <= j < end) ==> ReplyBuffer(mem, frame, ip)[j] == mem[j]
  {
    hide Ip.Header, ReplyChecksum, HeadWord, WordsOf;
  }

  /** One past the last word of the reply. */
  function ReplyEnd(ip: Ip.IpRx): nat
    requires ip.totalLen >= 20
  {
    TX_SCRATCH_BASE + 5 + (ip.totalLen - 20 + 3) / 4
  }

  /** Replies to datagrams longer than 256 bytes run into the region of the DHCP frames: a word there changes exactly if
      the message has another word at that place. */
  lemma SpillsIff(mem: seq<word>, frame: seq<word>, ip: Ip.IpRx)
    requires |mem| == BUFFER_DEPTH && |frame| == FRAME_BUF_WORDS && 20 <= ip.totalLen <= 20 + MAX_MESSAGE
    ensures (exists j :: DHCP_FRAME_BASE <= j < DHCP_FRAME_BASE + DHCP_REGION_SIZE
                         && ReplyBuffer(mem, frame, ip)[j] != mem[j])
        <==> exists j :: DHCP_FRAME_BASE <= j < ReplyEnd(ip) && frame[j - TX_SCRATCH_BASE] != mem[j]
    ensures ip.totalLen <= 256 <==> ReplyEnd(ip) <= DHCP_FRAME_BASE
  {
    hide Ip.Header, ReplyChecksum, HeadWord, WordsOf;
    var out := ReplyBuffer(mem, frame, ip);
    forall j | DHCP_FRAME_BASE <= j < DHCP_FRAME_BASE + DHCP_REGION_SIZE
      ensures out[j] == if j < ReplyEnd(ip) then frame[j - TX_SCRATCH_BASE] else mem[j]
    {
    }
    if j :| DHCP_FRAME_BASE <= j < ReplyEnd(ip) && frame[j - TX_SCRATCH_BASE] != mem[j] {
      assert out[j] != mem[j];
    }
  }

  /** The reply's ones' complement sum verifies. */
  lemma ReplyVerifies(m: seq<byte>)
    requires |m| >= 4
    ensures var c := Check(Sum16(Zeroed(m))); Check(Sum16([ECHO_REPLY, m[1], Hi(c), Lo(c)] + m[4..])) == 0
  {
    hide Check, Sum16;
    var z := Zeroed(m);
    var c := Check(Sum16(z));
    FillVerifies(0, z, 2);
    var t: seq<byte> := z[2 := Hi(c)][3 := Lo(c)];
    assert t == [ECHO_REPLY, m[1], Hi(c), Lo(c)] + m[4..];
  }
}
