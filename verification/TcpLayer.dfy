/** layer_tcp.cpp as an object: the connection table, the send buffers and the queue registers, updated in place. */
module TcpLayer {
  import opened Bytes
  import opened Checksum
  import opened Layout
  import opened Arp
  import opened Store
  import opened Tcp
  import opened TcpFrame
  import Ip
  import O = TcpOptions

  class TcpServer {
    const conns: array<Conn>
    /** The three 576-byte send buffers, one after the other. */
    const bufs: array<byte>
    var qLen: nat
    var qOff: nat
    var qCid: nat

    ghost function Value(): State
      reads this, conns, bufs
    {
      State(conns[..], bufs[..], qLen, qOff, qCid)
    }

    constructor ()
      ensures Value() == INIT
      ensures fresh(conns) && fresh(bufs)
    {
      conns := new Conn[MAX_CONN](_ => FREE_CONN);
      bufs := new byte[MAX_CONN * SEND_BUF](_ => 0);
      qLen, qOff, qCid := 0, 0, 0;
    }

    /** tcp_find. */
    method FindSlot(port: u16, ip: word) returns (r: Option<nat>)
      ensures r == Tcp.Find(conns[..], port, ip)
    {
      var free: Option<nat> := None;
      for i := 0 to conns.Length
        invariant Tcp.Find(conns[..], port, ip) == FindFrom(conns[..], port, ip, i, free)
      {
        if conns[i].st != Free && conns[i].peerPort == port && conns[i].peerIp == ip {
          return Some(i);
        }
        if conns[i].st == Free && free == None {
          free := Some(i);
        }
      }
      r := free;
    }

    /** tcp_reno_on_ack on the connection in slot cid. */
    method RenoOnAck(cid: nat, ack: word)
      requires cid < conns.Length && conns[cid].cwnd > 0
      modifies conns
      ensures conns[..] == old(conns[..])[cid := OnAck(old(conns[cid]), ack)]
    {
      var c := conns[cid];
      var acked := Minus(ack, c.lastAck);
      if acked == 0 {
        c := c.(dupAcks := (c.dupAcks + 1) % 0x100);
        if c.dupAcks == 3 {
          c := c.(dupAcks := 0, ssthresh := if c.flight / 2 > 2 * MSS then c.flight / 2 else 2 * MSS);
          c := c.(cwnd := Plus(c.ssthresh, 3 * MSS));
        } else if c.dupAcks > 3 {
          c := c.(cwnd := Plus(c.cwnd, MSS));
        }
        conns[cid] := c;
        return;
      }
      c := c.(dupAcks := 0);
      c := c.(flight := if c.flight >= acked then c.flight - acked else 0);
      c := c.(lastAck := ack);
      if c.cwnd < c.ssthresh {
        c := c.(cwnd := Plus(c.cwnd, MSS));
        if c.cwnd > c.ssthresh {
          c := c.(cwnd := c.ssthresh);
        }
      } else {
        c := c.(cwnd := Plus(c.cwnd, Growth(c.cwnd)));
      }
      conns[cid] := c;
    }

    /** tcp_build_hdr and the payload copy, into a scratch array nobody cleared. */
    method BuildSegment(c: Conn, flags: Flags, payload: seq<byte>) returns (seg: array<byte>)
      requires Sendable(flags, payload)
      ensures fresh(seg) && seg.Length == SCRATCH
      ensures seg[..4 * DataOffset(flags) + |payload|] == SegmentWith(c, flags, payload, 0)
    {
      hide HeaderWith;
      seg := new byte[SCRATCH];
      var h := HeaderWith(c, flags, 0);
      for i := 0 to |h|
        invariant seg[..i] == h[..i]
      {
        seg[i] := h[i];
      }
      for i := 0 to |payload|
        invariant seg[..|h| + i] == h + payload[..i]
      {
        seg[|h| + i] := payload[i];
      }
    }

    /** The segment with its checksum; the ghost result is what the array held beyond it. */
    method BuildChecked(c: Conn, flags: Flags, payload: seq<byte>) returns (seg: array<byte>, ghost stale: seq<byte>)
      requires Sendable(flags, payload)
      ensures fresh(seg) && |stale| == SCRATCH
      ensures seg[..] == SegmentBytes(c, flags, payload) + stale[|SegmentBytes(c, flags, payload)|..]
    {
      hide SegmentWith, Check;
      var total: u16 := 4 * DataOffset(flags) + |payload|;
      seg := BuildSegment(c, flags, payload);
      stale := seg[..];
      var cs := TcpChecksum(BOARD_IP, c.peerIp, seg, total);
      SegmentFilled(c, flags, payload, cs);
      ghost var z: seq<byte> := seg[..total];
      seg[16], seg[17] := Hi(cs), Lo(cs);
      assert seg[..total] == z[16 := Hi(cs)][17 := Lo(cs)];
      assert seg[..] == seg[..total] + stale[total..];
    }

    /** The IP header and the segment, written to the transmit region. */
    method WriteFrame(buffer: array<word>, c: Conn, flags: Flags, payload: seq<byte>) returns (ghost stale: seq<byte>)
      requires Sendable(flags, payload) && buffer.Length == BUFFER_DEPTH
      modifies buffer
      ensures |stale| == SCRATCH && buffer[..] == SendBuffer(old(buffer[..]), c, flags, payload, stale)
    {
      hide SegmentBytes, WordsOf, Ip.Header;
      var total: u16 := 4 * DataOffset(flags) + |payload|;
      var seg;
      seg, stale := BuildChecked(c, flags, payload);
      var ip := Ip.BuildHeader(20 + total, 0, 128, Ip.PROTO_TCP, BOARD_IP, c.peerIp);
      StoreBytes(buffer, TX_UDP_BASE, ip, 5);
      StoreBytes(buffer, TX_UDP_BASE + 5, seg, (total + 3) / 4);
    }

    /** tcp_send for a valid slot. The ghost result is what the scratch array held beyond the segment. */
    method Send(buffer: array<word>, reg: ReqRegister, cache: ArpCache, cid: nat, flags: Flags, payload: seq<byte>)
      returns (ghost stale: seq<byte>)
      requires cid < conns.Length && Sendable(flags, payload) && buffer.Length == BUFFER_DEPTH && cache.Valid()
      modifies conns, buffer, reg, cache, cache.l1, cache.age, cache.l2
      ensures conns[..] == old(conns[..])[cid := AfterSend(old(conns[cid]), flags, |payload|)]
      ensures cache.Valid() && |stale| == SCRATCH
      ensures Performed(old(buffer[..]), old(reg.req), old(cache.Value()),
                        Some(Out(cid, old(conns[cid]), flags, payload)), stale, buffer[..], reg.req, cache.Value())
    {
      hide SendBuffer, Answer, AfterLookup;
      var c := conns[cid];
      stale := WriteFrame(buffer, c, flags, payload);
      var inc := (if HasSyn(flags) then 1 else 0) + (if HasFin(flags) then 1 else 0) + |payload|;
      if |payload| > 0 || HasSyn(flags) || HasFin(flags) {
        conns[cid] := c.(sndSeq := Plus(c.sndSeq, inc), flight := Plus(c.flight, inc));
      }
      var m := cache.Lookup(c.peerIp);
      reg.req := reg.req.(dst := if m.Some? then m.value else BROADCAST_MAC, ethertype := ETHERTYPE_IPV4,
                          addr := TX_UDP_BASE, len := 20 + 4 * DataOffset(flags) + |payload|, request := true);
    }

    /** The copy loop of tcp_queue. */
    method CopyIn(at: nat, payload: seq<byte>, n: nat)
      requires n <= |payload| && at + n <= bufs.Length
      modifies bufs
      ensures bufs[..] == old(bufs[..])[..at] + payload[..n] + old(bufs[..])[at + n..]
    {
      for i := 0 to n
        invariant forall j :: 0 <= j < bufs.Length ==>
          bufs[j] == if at <= j < at + i then payload[j - at] else old(bufs[j])
      {
        bufs[at + i] := payload[i];
      }
    }

    /** tcp_queue. */
    method Enqueue(cid: nat, payload: seq<byte>)
      requires Valid(Value()) && cid < MAX_CONN && |payload| <= SEND_BUF
      modifies this, bufs
      ensures Value() == Queue(old(Value()), cid, payload)
    {
      if |payload| == 0 {
        return;
      }
      if qLen == qOff {
        qLen, qOff, qCid := 0, 0, cid;
      }
      var room := SEND_BUF - qLen;
      if room > |payload| {
        room := |payload|;
      }
      CopyIn(cid * SEND_BUF + qLen, payload, room);
      qLen := qLen + room;
    }

    /** tcp_maintenance, with no request pending. */
    method Maintenance(buffer: array<word>, reg: ReqRegister, cache: ArpCache) returns (ghost stale: seq<byte>)
      requires Valid(Value()) && buffer.Length == BUFFER_DEPTH && cache.Valid() && !reg.req.request
      modifies this, conns, buffer, reg, cache, cache.l1, cache.age, cache.l2
      ensures Value() == Maintain(old(Value())).0
      ensures cache.Valid() && |stale| == SCRATCH
      ensures Performed(old(buffer[..]), old(reg.req), old(cache.Value()), Maintain(old(Value())).1, stale,
                        buffer[..], reg.req, cache.Value())
    {
      hide Performed;
      stale := seq(SCRATCH, _ => 0);
      if qLen > qOff {
        var rem := qLen - qOff;
        var chunk := if rem > TX_CHUNK then TX_CHUNK else rem;
        var at := qCid * SEND_BUF + qOff;
        var payload := bufs[at..at + chunk];
        ParkedHead(Value(), chunk);
        stale := Send(buffer, reg, cache, qCid, ACK, payload);
        qOff := qOff + chunk;
        if qOff >= qLen {
          qLen, qOff := 0, 0;
        }
      } else {
        NothingPerformed(buffer[..], reg.req, cache.Value(), stale);
      }
    }

    /** The TCP header of the staged frame. */
    method ReadHeader(ip: Ip.IpRx, frame: array<word>) returns (s: Segment)
      requires frame.Length == FRAME_BUF_WORDS && LengthsFit(ip, frame[..])
      ensures s == ParseSegment(ip, frame[..]).(peer := O.DEFAULTS, payload := [])
    {
      hide MemByte, PeerOf, PayloadOf, LengthsFit, U16Of, WordOf;
      ghost var t := ReadBytes(frame[..], 5, 20);
      var th := ReadBlock(frame, 5, 20);
      assert th[2] == MemByte(frame[..], 22) && th[3] == MemByte(frame[..], 23);
      s := Segment(ip.srcIp, U16Of(th[0], th[1]), U16Of(th[2], th[3]), WordOf(th[4], th[5], th[6], th[7]),
                   WordOf(th[8], th[9], th[10], th[11]), th[13], U16Of(th[14], th[15]), O.DEFAULTS, []);
    }

    /** Byte-wise copy of n bytes of the staged frame from word address base on. */
    method ReadBlock(frame: array<word>, base: nat, n: nat) returns (out: seq<byte>)
      requires 4 * base + n <= 4 * frame.Length
      ensures out == ReadBytes(frame[..], base, n)
    {
      hide MemByte;
      out := [];
      for i := 0 to n
        invariant |out| == i && forall j :: 0 <= j < i ==> out[j] == MemByte(frame[..], 4 * base + j)
      {
        var b := O.FrameByte(frame, 4 * base + i);
        out := out + [b];
      }
    }

    /** tcp_rx_process on a segment whose lengths fit. */
    method RxProcess(ip: Ip.IpRx, frame: array<word>, buffer: array<word>, reg: ReqRegister, cache: ArpCache)
      returns (ghost stale: seq<byte>)
      requires Valid(Value()) && AllSound(Value()) && cache.Valid()
      requires frame != buffer && frame.Length == FRAME_BUF_WORDS && buffer.Length == BUFFER_DEPTH
      requires LengthsFit(ip, frame[..])
      modifies this, conns, bufs, buffer, reg, cache, cache.l1, cache.age, cache.l2
      ensures cache.Valid() && |stale| == SCRATCH
      ensures ValidSegment(ParseSegment(ip, old(frame[..]))) && ParseSegment(ip, old(frame[..])).peer.wscale <= 7
      ensures Value() == Receive(old(Value()), ParseSegment(ip, old(frame[..]))).0
      ensures Performed(old(buffer[..]), old(reg.req), old(cache.Value()),
                        Receive(old(Value()), ParseSegment(ip, old(frame[..]))).1, stale,
                        buffer[..], reg.req, cache.Value())
    {
      hide MemByte, Performed, Switch, Noted, Opened, Tcp.Find, LengthsFit, ReadBytes;
      ghost var full := ParseSegment(ip, frame[..]);
      stale := seq(SCRATCH, _ => 0);
      NothingPerformed(buffer[..], reg.req, cache.Value(), stale);
      ParsedValid(ip, frame[..]);
      var s := ReadHeader(ip, frame);
      if s.dstPort != ECHO_PORT {
        return;
      }
      var doff;
      s, doff := ReadPayload(ip, frame, s);
      var slot := FindSlot(s.srcPort, s.srcIp);
      if slot.None? || slot.value >= MAX_CONN {
        return;
      }
      var cid := slot.value;
      if conns[cid].st == Free && !Opens(conns[cid], s) {
        return;
      }
      stale := Handle(frame, doff, buffer, reg, cache, cid, s);
    }

    /** The payload; the options are left for a SYN that opens a connection. */
    method ReadPayload(ip: Ip.IpRx, frame: array<word>, h: Segment) returns (s: Segment, doff: nat)
      requires frame.Length == FRAME_BUF_WORDS && LengthsFit(ip, frame[..]) && h.dstPort == ECHO_PORT
      requires h == ParseSegment(ip, frame[..]).(peer := O.DEFAULTS, payload := [])
      ensures s == ParseSegment(ip, frame[..]).(peer := O.DEFAULTS) && doff == MemByte(frame[..], 32) / 16
    {
      hide MemByte, PeerOf;
      var b := O.FrameByte(frame, 32);
      doff := b / 16;
      var payload := ReadBlock(frame, 5 + doff, PayloadLength(ip.totalLen, doff));
      s := h.(payload := payload);
    }

    /** What happens once the segment has its slot. */
    method Handle(frame: array<word>, doff: nat, buffer: array<word>, reg: ReqRegister, cache: ArpCache, cid: nat,
                  s0: Segment)
      returns (ghost stale: seq<byte>)
      requires Valid(Value()) && AllSound(Value()) && cache.Valid() && ValidSegment(s0)
      requires frame != buffer && frame.Length == FRAME_BUF_WORDS && buffer.Length == BUFFER_DEPTH
      requires cid < MAX_CONN && doff == MemByte(frame[..], 32) / 16
      modifies this, conns, bufs, buffer, reg, cache, cache.l1, cache.age, cache.l2
      ensures cache.Valid() && |stale| == SCRATCH
      ensures var t, s := old(Value()), s0.(peer := PeerOf(old(frame[..])));
        var c := if t.conns[cid].st == Free then Opened(s) else t.conns[cid];
        && c.cwnd > 0 && c.peerWscale <= 7
        && var (u, out) := Switch(t.(conns := t.conns[cid := Noted(c, s)]), cid, s);
        && Value() == u
        && Performed(old(buffer[..]), old(reg.req), old(cache.Value()), out, stale, buffer[..], reg.req, cache.Value())
    {
      hide MemByte, Performed, Switch, Noted, Opened, PeerOf;
      var s := s0;
      ghost var t, p := Value(), PeerOf(frame[..]);
      ghost var full := s0.(peer := p);
      ghost var c := if t.conns[cid].st == Free then Opened(full) else t.conns[cid];
      assert Tcp.Sound(t.conns[cid]);
      if conns[cid].st == Free {
        s := OpenSlot(frame, doff, cid, s0);
      } else {
        PeerIrrelevant(conns[cid], s0, p);
      }
      assert conns[cid] == c && s.(peer := p) == full;
      Note(cid, s);
      assert Noted(c, s) == Noted(c, full);
      assert Value() == t.(conns := t.conns[cid := Noted(c, full)]);
      SwitchIgnoresPeer(Value(), cid, s, p);
      stale := RunSwitch(buffer, reg, cache, cid, s);
    }

    /** A free slot taken for a SYN, with what its options say. */
    method OpenSlot(frame: array<word>, doff: nat, cid: nat, s0: Segment) returns (s: Segment)
      requires cid < conns.Length && frame.Length == FRAME_BUF_WORDS && doff == MemByte(frame[..], 32) / 16
      modifies conns
      ensures s == s0.(peer := PeerOf(frame[..]))
      ensures conns[..] == old(conns[..])[cid := Opened(s)] && conns[cid].cwnd > 0 && conns[cid].peerWscale <= 7
    {
      hide MemByte;
      s := s0.(peer := O.DEFAULTS);
      if doff > 5 {
        var p := O.ParseFrame(frame, doff);
        s := s.(peer := p);
        ParseClamped(ReadBytes(frame[..], 10, 4 * (doff - 5) + 2), 0, 4 * (doff - 5), O.DEFAULTS);
      }
      conns[cid] := Opened(s);
    }

    /** The window and, for an acknowledgement, Reno. */
    method Note(cid: nat, s: Segment)
      requires cid < conns.Length && conns[cid].cwnd > 0 && conns[cid].peerWscale <= 7
      modifies conns
      ensures conns[..] == old(conns[..])[cid := Noted(old(conns[cid]), s)]
    {
      hide OnAck;
      conns[cid] := conns[cid].(peerWindow := if s.wnd > 0 then s.wnd * Shift(conns[cid].peerWscale) else s.wnd);
      if HasAck(s.flags) {
        RenoOnAck(cid, s.ackNo);
      }
    }

    /** The switch on the connection state. */
    method RunSwitch(buffer: array<word>, reg: ReqRegister, cache: ArpCache, cid: nat, s: Segment)
      returns (ghost stale: seq<byte>)
      requires Valid(Value()) && cid < MAX_CONN && ValidSegment(s) && buffer.Length == BUFFER_DEPTH && cache.Valid()
      modifies this, conns, bufs, buffer, reg, cache, cache.l1, cache.age, cache.l2
      ensures cache.Valid() && |stale| == SCRATCH
      ensures Value() == Switch(old(Value()), cid, s).0
      ensures Performed(old(buffer[..]), old(reg.req), old(cache.Value()), Switch(old(Value()), cid, s).1, stale,
                        buffer[..], reg.req, cache.Value())
    {
      hide Performed, Queue;
      stale := seq(SCRATCH, _ => 0);
      NothingPerformed(buffer[..], reg.req, cache.Value(), stale);
      match conns[cid].st {
        case Listen =>
          if HasSyn(s.flags) {
            conns[cid] := conns[cid].(peerSeq := Plus(s.seqNo, 1), peerIp := s.srcIp, peerPort := s.srcPort,
                st := SynRcvd);
            stale := Send(buffer, reg, cache, cid, SYN + ACK, []);
          }
        case SynRcvd =>
          if HasAck(s.flags) && s.ackNo == conns[cid].sndSeq {
            conns[cid] := conns[cid].(st := Established);
          }
        case Established =>
          conns[cid] := conns[cid].(peerSeq := Plus(s.seqNo, |s.payload| + if HasFin(s.flags) then 1 else 0));
          Enqueue(cid, s.payload);
          if HasFin(s.flags) {
            stale := Send(buffer, reg, cache, cid, FIN + ACK, []);
            conns[cid] := conns[cid].(st := LastAck);
          }
        case LastAck =>
          if HasAck(s.flags) {
            conns[cid] := conns[cid].(st := Free);
          }
        case Free =>
      }
    }
  }

  /** What handing a segment to the MAC does to the transmit buffer, the request register and the ARP cache. */
  predicate Performed(mem: seq<word>, r: TxReq, a: Cache, out: Option<Out>, stale: seq<byte>,
                      mem': seq<word>, r': TxReq, a': Cache)
    requires |mem| == BUFFER_DEPTH && |stale| == SCRATCH
  {
    if out.None? then mem' == mem && r' == r && a' == a
    else
      var o := out.value;
      && Sendable(o.flags, o.payload)
      && mem' == SendBuffer(mem, o.conn, o.flags, o.payload, stale)
      && r' == SendReq(r, Answer(a, o.conn.peerIp), 4 * DataOffset(o.flags) + |o.payload|)
      && a' == AfterLookup(a, o.conn.peerIp)
  }

  /** Only a SYN that opens a connection looks at the options. */
  lemma PeerIrrelevant(c: Conn, s: Segment, p: O.Peer)
    requires c.cwnd > 0 && c.peerWscale <= 7
    ensures Noted(c, s.(peer := p)) == Noted(c, s)
  {
    hide OnAck;
  }

  lemma SwitchIgnoresPeer(t: State, cid: nat, s: Segment, p: O.Peer)
    requires Valid(t) && cid < MAX_CONN && ValidSegment(s)
    ensures Switch(t, cid, s.(peer := p)) == Switch(t, cid, s)
  {
    hide Queue;
  }

  lemma ParkedHead(t: State, n: nat)
    requires Valid(t) && n <= |Parked(t)|
    ensures Parked(t)[..n] == t.bufs[t.qCid * SEND_BUF + t.qOff..t.qCid * SEND_BUF + t.qOff + n]
  {
  }

  lemma NothingPerformed(mem: seq<word>, r: TxReq, a: Cache, stale: seq<byte>)
    requires |mem| == BUFFER_DEPTH && |stale| == SCRATCH
    ensures Performed(mem, r, a, None, stale, mem, r, a)
  {
  }
}
