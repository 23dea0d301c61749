/** Congestion control over acknowledgements: slow start, avoidance, and the third duplicate; RFC 5681 sections 3.1,
    3.2. */
module TcpReno {
  import opened Bytes
  import opened Tcp
  import opened TcpTable

  /** A live connection with numbers as the table's runs reach them. */
  predicate Running(c: Conn, top: nat) { c.st != Free && RenoSane(c, top) && top <= 0x8000_0000 }

  // ---------------------------------------------------------------- new acknowledgements

  /** Each acknowledgement names another number than the one before. */
  predicate News(last: word, acks: seq<word>)
    decreases |acks|
  {
    acks == [] || (acks[0] != last && News(acks[0], acks[1..]))
  }

  function Acked(c: Conn, top: nat, acks: seq<word>): Conn
    requires Running(c, top) && News(c.lastAck, acks)
    decreases |acks|
  {
    if acks == [] then c
    else
      NewAck(c, top, acks[0]);
      Acked(OnAck(c, acks[0]), top, acks[1..])
  }

  /** One new acknowledgement: below the threshold the window grows by one segment up to the threshold, else by the
      largest number whose product with the window is at most one segment squared; the flight shrinks by what is
      acknowledged. */
  lemma NewAck(c: Conn, top: nat, ack: word)
    requires Running(c, top) && ack != c.lastAck
    ensures var (d, n) := (OnAck(c, ack), Minus(ack, c.lastAck));
      && Running(d, top) && d.lastAck == ack && d.dupAcks == 0 && d.ssthresh == c.ssthresh
      && d.flight == (if n <= c.flight then c.flight - n else 0)
      && (c.cwnd < c.ssthresh ==> d.cwnd == if c.cwnd + MSS <= c.ssthresh then c.cwnd + MSS else c.ssthresh)
      && (c.cwnd >= c.ssthresh ==>
            d.cwnd >= c.cwnd && (d.cwnd - c.cwnd) * c.cwnd <= MSS * MSS < (d.cwnd - c.cwnd + 1) * c.cwnd)
  {
    NewAckSane(c, ack, top);
    if c.cwnd >= c.ssthresh {
      Avoidance(c.cwnd);
      Quotient(MSS * MSS, c.cwnd);
    }
  }

  lemma Quotient(n: nat, w: nat)
    requires w > 0
    ensures n / w * w <= n < (n / w + 1) * w
  {
    assert n == w * (n / w) + n % w;
  }

  /** Slow start: n new acknowledgements below the threshold raise the window by n segments, up to the threshold. */
  lemma {:induction false} SlowStart(c: Conn, top: nat, acks: seq<word>)
    requires Running(c, top) && News(c.lastAck, acks) && acks != [] && c.cwnd + (|acks| - 1) * MSS < c.ssthresh
    ensures var d := Acked(c, top, acks);
      && d.ssthresh == c.ssthresh && d.dupAcks == 0
      && d.cwnd == if c.cwnd + |acks| * MSS <= c.ssthresh then c.cwnd + |acks| * MSS else c.ssthresh
    decreases |acks|
  {
    hide OnAck;
    NewAck(c, top, acks[0]);
    var d := OnAck(c, acks[0]);
    if |acks| > 1 {
      SlowStart(d, top, acks[1..]);
    } else {
      assert Acked(d, top, acks[1..]) == d;
    }
  }

  // ---------------------------------------------------------------- duplicates

  /** One duplicate. */
  lemma OneDuplicate(c: Conn)
    requires c.cwnd > 0 && c.dupAcks <= 2
    ensures var (d, half) := (OnAck(c, c.lastAck), if c.flight / 2 > 2 * MSS then c.flight / 2 else 2 * MSS);
      && d.flight == c.flight && d.lastAck == c.lastAck && d.cwnd > 0
      && d.dupAcks == (if c.dupAcks == 2 then 0 else c.dupAcks + 1)
      && d.ssthresh == (if c.dupAcks == 2 then half else c.ssthresh)
      && d.cwnd == (if c.dupAcks == 2 then half + 3 * MSS else c.cwnd)
  {
  }

  function Repeated(c: Conn, n: nat): (d: Conn)
    requires c.cwnd > 0 && c.dupAcks <= 2
    ensures d.cwnd > 0 && d.dupAcks <= 2
    decreases n
  {
    if n == 0 then c
    else
      var d := Repeated(c, n - 1);
      OneDuplicate(d);
      OnAck(d, d.lastAck)
  }

  /** Every third duplicate in a row halves: the threshold is half the flight, at least two segments, the window that
      plus three segments; the other duplicates change no window, and none changes the flight. */
  lemma {:induction false} Duplicates(c: Conn, n: nat)
    requires c.cwnd > 0 && c.dupAcks == 0
    ensures var (d, half) := (Repeated(c, n), if c.flight / 2 > 2 * MSS then c.flight / 2 else 2 * MSS);
      && d.dupAcks == n % 3 && d.flight == c.flight && d.lastAck == c.lastAck
      && d.ssthresh == (if n < 3 then c.ssthresh else half)
      && d.cwnd == (if n < 3 then c.cwnd else half + 3 * MSS)
    decreases n
  {
    hide OnAck;
    if n > 0 {
      Duplicates(c, n - 1);
      OneDuplicate(Repeated(c, n - 1));
      Thirds(n);
    }
  }

  lemma Thirds(n: nat)
    requires n > 0
    ensures n % 3 == if (n - 1) % 3 == 2 then 0 else (n - 1) % 3 + 1
  {
  }

  // ---------------------------------------------------------------- the start

  /** A new connection starts with one segment of window, the peer's if that is smaller, and the largest threshold. */
  lemma StartsSmall(s: Segment)
    ensures var c := Opened(s);
      && c.ssthresh == 65535 && c.flight == 0 && c.dupAcks == 0
      && c.cwnd == (if s.peer.mss == 0 || s.peer.mss > 460 then 460 else s.peer.mss)
      && c.peerMss == s.peer.mss && c.peerWscale == s.peer.wscale
  {
  }

  function Power2(n: nat): nat { if n == 0 then 1 else 2 * Power2(n - 1) }

  /** The peer's window is the announced one scaled by a power of two. */
  lemma WindowScaled(c: Conn, s: Segment)
    requires c.cwnd > 0 && c.peerWscale <= 7
    ensures Noted(c, s).peerWindow == s.wnd * Power2(c.peerWscale)
  {
    var n := c.peerWscale;
    assert Power2(1) == 2 && Power2(2) == 4 && Power2(3) == 8 && Power2(4) == 16;
    assert Power2(5) == 32 && Power2(6) == 64 && Power2(7) == 128;
    assert n == 0 || n == 1 || n == 2 || n == 3 || n == 4 || n == 5 || n == 6 || n == 7;
    assert Shift(n) == Power2(n);
  }
}
