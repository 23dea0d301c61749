/** From power-up: a handshake, then the echo of everything. */
module EchoStart {
  import opened Bytes
  import opened Layout
  import opened Echo
  import opened EchoIntegrity
  import opened EchoRuns
  import opened EchoTcp
  import opened EchoData
  import opened EchoLive
  import opened EchoWhole
  import opened TcpHandshake
  import MacRx
  import Tcp
  import TcpEcho
  import TcpTable

  /** From power-up to the echo of everything: a run whose only segments for the echo port are a peer's SYN and the
      acknowledgement of the SYN-ACK, then data in measured rounds. The segments asked for from there on have the
      numbers from the initial one plus one, carry exactly the bytes received, in order, and are on the wire at the
      end. */
  lemma EchoFromPowerUp(frame: seq<word>, hello: seq<Input>, rounds: seq<Round>, drain: seq<Input>, flush: seq<Input>,
                        pacing: nat, port: u16, ip: word)
    requires |frame| == FRAME_BUF_WORDS && GatedRun(PowerUp(frame), hello, pacing) && pacing >= 2
    requires Handshake(AllEvents(PowerUp(frame), hello, pacing), 0, port, ip)
    requires var t := After(PowerUp(frame), hello, pacing); Measured(t.ch, rounds, t.tcp.conns, 0)
    requires Silent(drain) && Silent(flush) && |drain| >= DRAIN_CALLS && |flush| >= FLUSH_CALLS
    ensures var t, ins := After(PowerUp(frame), hello, pacing), Flat(rounds) + drain;
      && Inv(t) && At(t.tcp, 2, port, ip) && MacRx.Live(t.ch)
      && GatedRun(t, ins, pacing) && GatedRun(t, ins + flush, pacing)
      && var jobs := AllAsked(t, ins, pacing);
         && (forall k :: 0 <= k < |jobs| ==> CarriesSegment(jobs[k]))
         && TcpEcho.Carries(Segments(jobs), 0, Tcp.Plus(Tcp.ISN, 1), Brought(t.ch, Flat(rounds)), 0)
         && TcpEcho.Sent(Segments(jobs), 0) == Brought(t.ch, Flat(rounds))
         && Rest(t) + Frames(jobs) <= Line(t, ins + flush, pacing)
  {
    hide Inv, TcpTable.Inv, Sized, After, AllEvents, GatedRun, TcpTable.Run, Flat, Brought, MacRx.Live, Silent,
         Measured, AllAsked, Segments, Frames, Line, Rest, CarriesSegment, TcpEcho.Sent, TcpEcho.Carries, PowerUp,
         Handshake, TcpEcho.Accepted;
    var p := PowerUp(frame);
    PowerUpOwes(frame);
    PowerUpTable(frame, port, ip);
    TableRun(p, hello, pacing, TcpTable.TOPS0);
    FramesOnLine(p, hello, pacing);
    Shaken(p.tcp, TcpTable.TOPS0, AllEvents(p, hello, pacing), 0, port, ip);
    var t := After(p, hello, pacing);
    var tops := TcpTable.Run(p.tcp, TcpTable.TOPS0, AllEvents(p, hello, pacing)).1;
    EverythingReturns(t, rounds, drain, flush, pacing, tops, 0);
    EchoNumbered(t, rounds, drain, pacing, tops, 0);
  }

  lemma PowerUpTable(frame: seq<word>, port: u16, ip: word)
    requires |frame| == FRAME_BUF_WORDS
    ensures TcpTable.Inv(PowerUp(frame).tcp, TcpTable.TOPS0) && At(PowerUp(frame).tcp, 0, port, ip)
  {
    TcpTable.InitInv();
  }
}
