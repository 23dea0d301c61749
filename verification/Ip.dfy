/** The IPv4 header: the check of layer_ip.cpp and the header every builder writes. */
module Ip {
  import opened Bytes
  import opened Checksum
  import opened Layout

  const PROTO_ICMP: byte := 1
  const PROTO_IGMP: byte := 2
  const PROTO_TCP: byte := 6
  const PROTO_UDP: byte := 17

  datatype IpRx = IpRx(valid: bool, protocol: byte, totalLen: u16, id: u16, ttl: byte, srcIp: word, dstIp: word)

  /** The version, length and checksum tests a received header must pass. */
  predicate Accepts(hdr: seq<byte>)
    requires |hdr| == 20
  {
    hdr[0] / 16 == 4 && hdr[0] % 16 == 5 && Check(Sum16(hdr)) == 0
  }

  function WordAt(s: seq<byte>, i: nat): word
    requires i + 4 <= |s|
  {
    WordOf(s[i], s[i + 1], s[i + 2], s[i + 3])
  }

  /** What ip_rx_process makes of 20 header bytes. */
  function Parse(hdr: seq<byte>): IpRx
    requires |hdr| == 20
  {
    if hdr[0] / 16 != 4 || hdr[0] % 16 != 5 then IpRx(false, 0, 0, 0, 0, 0, 0)
    else
      var dst := WordAt(hdr, 16);
      IpRx((dst == BOARD_IP || dst == BROADCAST_IP) && Check(Sum16(hdr)) == 0,
           hdr[9], U16Of(hdr[2], hdr[3]), U16Of(hdr[4], hdr[5]), hdr[8], WordAt(hdr, 12), dst)
  }

  /** ip_rx_process, for a frame the MAC delivered with the IPv4 ethertype. */
  method Process(frame: array<word>) returns (ip: IpRx)
    requires frame.Length >= 5
    ensures ip == Parse(ReadBytes(frame[..], 0, 20))
  {
    ghost var bytes := ReadBytes(frame[..], 0, 20);
    var hdr := new byte[20];
    for i := 0 to 5
      invariant forall j :: 0 <= j < 4 * i ==> hdr[j] == bytes[j]
    {
      forall k: nat | k < 4 ensures MemByte(frame[..], 4 * i + k) == ByteOf(frame[i], k) {
        MemByteAt(frame[..], i, k);
      }
      hdr[4 * i], hdr[4 * i + 1] := ByteOf(frame[i], 0), ByteOf(frame[i], 1);
      hdr[4 * i + 2], hdr[4 * i + 3] := ByteOf(frame[i], 2), ByteOf(frame[i], 3);
    }
    assert hdr[..] == bytes;
    if hdr[0] / 16 != 4 || hdr[0] % 16 != 5 {
      return IpRx(false, 0, 0, 0, 0, 0, 0);
    }
    var computed := HeaderChecksum(hdr);
    var src := WordOf(hdr[12], hdr[13], hdr[14], hdr[15]);
    var dst := WordOf(hdr[16], hdr[17], hdr[18], hdr[19]);
    ip := IpRx((dst == BOARD_IP || dst == BROADCAST_IP) && computed == 0,
               hdr[9], U16Of(hdr[2], hdr[3]), U16Of(hdr[4], hdr[5]), hdr[8], src, dst);
  }

  /** The ten header words handed to the checksum routine. */
  method HeaderChecksum(hdr: array<byte>) returns (c: u16)
    requires hdr.Length == 20
    ensures c == Check(Sum16(hdr[..]))
  {
    var words: seq<u16> := seq(10, i requires 0 <= i < 10 reads hdr => U16Of(hdr[2 * i], hdr[2 * i + 1]));
    assert words == Pairs(hdr[..]);
    SumOfPairs(hdr[..]);
    NoWrap(words);
    c := OnesComplementChecksum(words);
  }

  // ---------------------------------------------------------------- built headers

  function HeaderWith(total: u16, id: u16, ttl: byte, proto: byte, src: word, dst: word, csum: u16): (h: seq<byte>)
    ensures |h| == 20
  {
    [0x45, 0, Hi(total), Lo(total), Hi(id), Lo(id), 0x40, 0, ttl, proto, Hi(csum), Lo(csum)]
    + WordBytes(src) + WordBytes(dst)
  }

  /** The header every builder of the stack writes: checksum computed over a zeroed field. */
  function Header(total: u16, id: u16, ttl: byte, proto: byte, src: word, dst: word): (h: seq<byte>)
    ensures |h| == 20
  {
    HeaderWith(total, id, ttl, proto, src, dst, Check(Sum16(HeaderWith(total, id, ttl, proto, src, dst, 0))))
  }

  method BuildHeader(total: u16, id: u16, ttl: byte, proto: byte, src: word, dst: word) returns (ip: array<byte>)
    ensures fresh(ip) && ip[..] == Header(total, id, ttl, proto, src, dst)
  {
    hide HeaderWith;
    var z := HeaderWith(total, id, ttl, proto, src, dst, 0);
    ip := new byte[20](i requires 0 <= i < 20 => z[i]);
    assert ip[..] == z;
    var c := HeaderChecksum(ip);
    ip[10], ip[11] := Hi(c), Lo(c);
    Filled(total, id, ttl, proto, src, dst, c);
    var t: seq<byte> := z[10 := Hi(c)][11 := Lo(c)];
    assert ip[..] == t;
  }

  lemma Filled(total: u16, id: u16, ttl: byte, proto: byte, src: word, dst: word, c: u16)
    ensures var z: seq<byte> := HeaderWith(total, id, ttl, proto, src, dst, 0);
      var t: seq<byte> := z[10 := Hi(c)][11 := Lo(c)];
      t == HeaderWith(total, id, ttl, proto, src, dst, c) && z[10] == 0 && z[11] == 0
  {
    hide ByteOf;
  }

  /** Every built header passes the receive check, and its fields read back. */
  lemma HeaderAccepted(total: u16, id: u16, ttl: byte, proto: byte, src: word, dst: word)
    ensures Parse(Header(total, id, ttl, proto, src, dst))
         == IpRx(dst == BOARD_IP || dst == BROADCAST_IP, proto, total, id, ttl, src, dst)
    ensures Accepts(Header(total, id, ttl, proto, src, dst))
  {
    hide HeaderWith, Check, Sum16;
    var z: seq<byte> := HeaderWith(total, id, ttl, proto, src, dst, 0);
    var c := Check(Sum16(z));
    Filled(total, id, ttl, proto, src, dst, c);
    FillVerifies(0, z, 10);
    HeaderFields(total, id, ttl, proto, src, dst, c);
  }

  lemma HeaderFields(total: u16, id: u16, ttl: byte, proto: byte, src: word, dst: word, c: u16)
    ensures var h := HeaderWith(total, id, ttl, proto, src, dst, c);
      && h[0] / 16 == 4 && h[0] % 16 == 5 && U16Of(h[2], h[3]) == total && U16Of(h[4], h[5]) == id
      && h[8] == ttl && h[9] == proto && WordAt(h, 12) == src && WordAt(h, 16) == dst
  {
    var h := HeaderWith(total, id, ttl, proto, src, dst, c);
    WordOfByteOf(src);
    WordOfByteOf(dst);
    hide ByteOf, WordOf;
    assert h[12..16] == WordBytes(src) && h[16..20] == WordBytes(dst);
    assert h[12] == h[12..16][0] && h[13] == h[12..16][1] && h[14] == h[12..16][2] && h[15] == h[12..16][3];
    assert h[16] == h[16..20][0] && h[17] == h[16..20][1] && h[18] == h[16..20][2] && h[19] == h[16..20][3];
  }

  // ---------------------------------------------------------------- what a received header must be

  /** The ten words of a header, added up. */
  function TenWords(h: seq<byte>): nat
    requires |h| == 20
  {
    U16Of(h[0], h[1]) + U16Of(h[2], h[3]) + U16Of(h[4], h[5]) + U16Of(h[6], h[7]) + U16Of(h[8], h[9])
    + U16Of(h[10], h[11]) + U16Of(h[12], h[13]) + U16Of(h[14], h[15]) + U16Of(h[16], h[17]) + U16Of(h[18], h[19])
  }

  lemma TenWordsSum(h: seq<byte>)
    requires |h| == 20
    ensures Sum16(h) == TenWords(h)
  {
    hide U16Of;
    TakeTwo(h);
    TakeTwo(h[2..]);
    TakeTwo(h[4..]);
    TakeTwo(h[6..]);
    TakeTwo(h[8..]);
    TakeTwo(h[10..]);
    TakeTwo(h[12..]);
    TakeTwo(h[14..]);
    TakeTwo(h[16..]);
    TakeTwo(h[18..]);
    hide Sum16;
    assert h[2..][2..] == h[4..] && h[4..][2..] == h[6..] && h[6..][2..] == h[8..] && h[8..][2..] == h[10..];
    assert h[10..][2..] == h[12..] && h[12..][2..] == h[14..] && h[14..][2..] == h[16..] && h[16..][2..] == h[18..];
    assert h[18..][2..] == [];
    NothingSums();
  }

  /** Any 20 bytes are taken for a header to the board exactly if version and length are 4 and 5, the destination is the
      board's or the broadcast address, and the ten words add up to a multiple of 65535 other than 0. */
  lemma ValidIff(h: seq<byte>)
    requires |h| == 20
    ensures Parse(h).valid <==>
      && h[0] == 0x45 && (WordAt(h, 16) == BOARD_IP || WordAt(h, 16) == BROADCAST_IP)
      && TenWords(h) > 0 && TenWords(h) % 0xFFFF == 0
  {
    hide Sum16, Check, WordAt, TenWords;
    TenWordsSum(h);
    CheckIsZero(Sum16(h));
  }

  /** Of all values in the checksum field of a built header exactly the computed one, or its alias, is accepted. */
  lemma FieldAcceptedIff(total: u16, id: u16, ttl: byte, proto: byte, src: word, dst: word, v: u16)
    ensures var c := Check(Sum16(HeaderWith(total, id, ttl, proto, src, dst, 0)));
      Parse(HeaderWith(total, id, ttl, proto, src, dst, v)).valid <==>
        (dst == BOARD_IP || dst == BROADCAST_IP) && (v == c || (c == 0 && v == 0xFFFF))
  {
    hide HeaderWith, Check, Sum16;
    var z: seq<byte> := HeaderWith(total, id, ttl, proto, src, dst, 0);
    Filled(total, id, ttl, proto, src, dst, v);
    Sum16Update(z, 10, v);
    CheckAccepts(Sum16(z), v);
    HeaderFields(total, id, ttl, proto, src, dst, v);
  }

  /** A valid header is refused after one of its 16-bit words has changed, except 0 against 0xFFFF. */
  lemma DamagedRefused(h: seq<byte>, k: nat, v: u16)
    requires |h| == 20 && Parse(h).valid && k % 2 == 0 && k < 20
    ensures var w := U16Of(h[k], h[k + 1]);
      v != w && !(v == 0 && w == 0xFFFF) && !(v == 0xFFFF && w == 0)
      ==> !Parse(h[k := Hi(v)][k + 1 := Lo(v)]).valid
  {
    hide Sum16, Check;
    DamageSeen(h, k, v);
  }
}
