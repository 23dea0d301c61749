/** Frames in, frames out: what the receive channel makes of any sequence of well-formed frames, and the round trip
    with the transmit side. */
module MacFrames {
  import opened Bytes
  import opened Layout
  import opened MacRx
  import Crc
  import T = MacTx
  import W = MacWire

  // ---------------------------------------------------------------- any input at all

  /** The FIFO holds exactly the words of the frame in progress. */
  predicate Aligned(ch: Channel) {
    Live(ch) && if ch.rx.st == Payload then |ch.fifo| == ch.rx.nwords else ch.fifo == []
  }

  /** This pass pushes a word that the 10-bit word counter cannot count. */
  predicate Overflows(s: Rx, input: Option<Beat>)
    requires Sane(s)
  {
    input.Some? && s.st == Payload && s.nwords == 1023 && (s.wrByte == 3 || input.value.last)
  }

  /** Whatever bytes arrive, alignment is lost exactly by a reset over a non-empty FIFO or by the 1024th word of one
      frame. */
  lemma AlignedExactly(ch: Channel, resetN: bool, input: Option<Beat>)
    requires Aligned(ch)
    ensures Aligned(Pass(ch, resetN, input).0)
        <==> if resetN then !Overflows(ch.rx, input) else ch.fifo == []
  {
    if resetN && input.Some? {
      StepCovered(ch.rx, input.value, |ch.fifo|);
    }
  }

  // ---------------------------------------------------------------- feeding bytes

  function Feed(ch: Channel, beats: seq<Beat>): (r: (Channel, seq<Arrival>))
    requires Live(ch)
    ensures Live(r.0)
    decreases |beats|
  {
    if beats == [] then (ch, [])
    else
      var (c, a) := Pass(ch, true, Some(beats[0]));
      var (e, rest) := Feed(c, beats[1..]);
      (e, (if a.Some? then [a.value] else []) + rest)
  }

  lemma {:induction false} FeedAppend(ch: Channel, a: seq<Beat>, b: seq<Beat>)
    requires Live(ch)
    ensures var (c, x) := Feed(ch, a);
      var (e, y) := Feed(c, b);
      Feed(ch, a + b) == (e, x + y)
    decreases |a|
  {
    hide Pass, Live;
    if a == [] {
      assert a + b == b;
      assert [] + Feed(ch, b).1 == Feed(ch, b).1;
    } else {
      assert (a + b)[1..] == a[1..] + b;
      var (c, x) := Pass(ch, true, Some(a[0]));
      FeedAppend(c, a[1..], b);
      var h := if x.Some? then [x.value] else [];
      var (d, u) := Feed(c, a[1..]);
      var (e, y) := Feed(d, b);
      assert (h + u) + y == h + (u + y);
    }
  }

  /** Passes with and without a byte. */
  function Passes(ch: Channel, inputs: seq<Option<Beat>>): (r: (Channel, seq<Arrival>))
    requires Live(ch)
    ensures Live(r.0)
    decreases |inputs|
  {
    if inputs == [] then (ch, [])
    else
      var (c, a) := Pass(ch, true, inputs[0]);
      var (e, rest) := Passes(c, inputs[1..]);
      (e, (if a.Some? then [a.value] else []) + rest)
  }

  function Present(inputs: seq<Option<Beat>>): seq<Beat> {
    if inputs == [] then [] else (if inputs[0].Some? then [inputs[0].value] else []) + Present(inputs[1..])
  }

  /** When the bytes arrive does not matter, only which and in what order. */
  lemma {:induction false} PassesAreFeed(ch: Channel, inputs: seq<Option<Beat>>)
    requires Live(ch)
    ensures Passes(ch, inputs) == Feed(ch, Present(inputs))
    decreases |inputs|
  {
    hide RxStep, Live, Stage;
    if inputs != [] {
      var (c, a) := Pass(ch, true, inputs[0]);
      PassesAreFeed(c, inputs[1..]);
      if inputs[0].None? {
        assert [] + Passes(c, inputs[1..]).1 == Passes(c, inputs[1..]).1;
        assert [] + Present(inputs[1..]) == Present(inputs[1..]);
      } else {
        assert Present(inputs)[1..] == Present(inputs[1..]);
      }
    }
  }

  // ---------------------------------------------------------------- up to the payload

  /** One byte outside the payload. */
  function Quiet(s: Rx, d: byte): Rx {
    if s.st == Payload then s else RxStep(s, Beat(d, false)).0
  }

  function Walk(s: Rx, bytes: seq<byte>): Rx
    decreases |bytes|
  {
    if bytes == [] then s else Walk(Quiet(s, bytes[0]), bytes[1..])
  }

  lemma {:induction false} WalkAppend(s: Rx, a: seq<byte>, b: seq<byte>)
    ensures Walk(s, a + b) == Walk(Walk(s, a), b)
    decreases |a|
  {
    hide Quiet;
    if a == [] {
      assert a + b == b;
    } else {
      assert (a + b)[1..] == a[1..] + b;
      WalkAppend(Quiet(s, a[0]), a[1..], b);
    }
  }

  lemma WalkOne(s: Rx, d: byte)
    ensures Walk(s, [d]) == Quiet(s, d)
  {
    hide Quiet;
    assert Walk(Quiet(s, d), []) == Quiet(s, d);
  }

  /** In a header no pass reports or pushes anything. */
  lemma {:induction false} FeedWalk(ch: Channel, beats: seq<Beat>, bytes: seq<byte>)
    requires Live(ch) && |beats| == |bytes| && forall i :: 0 <= i < |beats| ==> beats[i].data == bytes[i]
    requires bytes != [] ==> Walk(ch.rx, bytes[..|bytes| - 1]).st != Payload
    ensures Feed(ch, beats) == (ch.(rx := Walk(ch.rx, bytes)), [])
    decreases |beats|
  {
    if beats != [] {
      hide Live, Stage;
      WalkStays(ch.rx, bytes);
      QuietPass(ch, beats[0]);
      var c := ch.(rx := Quiet(ch.rx, bytes[0]));
      if |bytes| > 1 {
        assert bytes[..|bytes| - 1][1..] == bytes[1..][..|bytes| - 2];
      }
      FeedWalk(c, beats[1..], bytes[1..]);
      assert Feed(c, beats[1..]).1 == [] && [] + Feed(c, beats[1..]).1 == [];
    }
  }

  lemma QuietPass(ch: Channel, b: Beat)
    requires Live(ch) && ch.rx.st != Payload
    ensures Pass(ch, true, Some(b)) == (ch.(rx := Quiet(ch.rx, b.data)), None)
  {
    StepCovered(ch.rx, b, |ch.fifo|);
    assert ch.fifo + [] == ch.fifo;
  }

  lemma {:induction false} WalkPayload(s: Rx, bytes: seq<byte>)
    requires s.st == Payload
    ensures Walk(s, bytes) == s
    decreases |bytes|
  {
    if bytes != [] {
      WalkPayload(s, bytes[1..]);
    }
  }

  lemma WalkStays(s: Rx, bytes: seq<byte>)
    requires bytes != [] && Walk(s, bytes[..|bytes| - 1]).st != Payload
    ensures s.st != Payload
  {
    if s.st == Payload {
      WalkPayload(s, bytes[..|bytes| - 1]);
    }
  }

  /** A frame on the wire: lead bytes 0x55 and the delimiter, the addresses, any number of VLAN tags (type and
      control information), the ethertype, and the rest up to the flagged last byte. */
  datatype Frame = Frame(lead: nat, dst: mac, src: mac, tags: seq<(u16, u16)>, ethertype: u16, rest: seq<byte>)

  predicate WellFormed(f: Frame) {
    && 7 <= f.lead <= 254 && !IsTpid(f.ethertype)
    && (forall i :: 0 <= i < |f.tags| ==> IsTpid(f.tags[i].0))
    && 0 < |f.rest| <= 4092
  }

  function Lead(n: nat): (s: seq<byte>)
    ensures |s| == n
  {
    if n == 0 then [] else Lead(n - 1) + [0x55]
  }

  function TagBytes(tags: seq<(u16, u16)>): seq<byte> {
    if tags == [] then []
    else [Hi(tags[0].0), Lo(tags[0].0), Hi(tags[0].1), Lo(tags[0].1)] + TagBytes(tags[1..])
  }

  function HeadBytes(f: Frame): seq<byte> {
    Lead(f.lead) + [0xD5] + T.MacBytes(f.dst) + T.MacBytes(f.src) + TagBytes(f.tags) + [Hi(f.ethertype)]
        + [Lo(f.ethertype)]
  }

  function WireBytes(f: Frame): seq<byte> { HeadBytes(f) + f.rest }

  function Cleared(s: Rx): Rx {
    s.(cnt := 0, dstAcc := 0, srcAcc := 0, ethAcc := 0, wrWord := 0, wrByte := 0, nwords := 0, vlanRem := 0)
  }

  lemma {:induction false} WalkLead(s: Rx, n: nat)
    requires s.st == Idle && 1 <= n <= 254
    ensures Walk(s, Lead(n)) == Cleared(s).(st := Preamble, cnt := n)
  {
    if n == 1 {
      assert Lead(1) == [0x55];
      WalkOne(s, 0x55);
    } else {
      WalkLead(s, n - 1);
      WalkAppend(s, Lead(n - 1), [0x55]);
      WalkOne(Walk(s, Lead(n - 1)), 0x55);
    }
  }

  lemma WalkDelimiter(s: Rx, n: nat)
    requires s.st == Idle && 7 <= n <= 254
    ensures Walk(s, Lead(n) + [0xD5]) == Cleared(s).(st := Header)
  {
    WalkLead(s, n);
    WalkAppend(s, Lead(n), [0xD5]);
    WalkOne(Walk(s, Lead(n)), 0xD5);
  }

  lemma WalkSix(s: Rx, m: mac)
    requires s.st == Header && ((s.cnt == 0 && s.dstAcc == 0) || (s.cnt == 6 && s.srcAcc == 0))
    ensures Walk(s, T.MacBytes(m)) == if s.cnt == 0 then s.(dstAcc := m, cnt := 6) else s.(srcAcc := m, cnt := 12)
  {
    MacTopFits(m, 0);
    assert Partly(s, m, 0) == s;
    assert T.MacBytes(m)[0..] == T.MacBytes(m);
    WalkFrom(s, m, 0);
  }

  /** Registers after k address bytes. */
  function Partly(s: Rx, m: mac, k: nat): Rx
    requires k <= 6
  {
    if s.cnt == 0 then s.(dstAcc := T.MacTop(m, k), cnt := k) else s.(srcAcc := T.MacTop(m, k), cnt := 6 + k)
  }

  lemma {:induction false} WalkFrom(s: Rx, m: mac, k: nat)
    requires s.st == Header && ((s.cnt == 0 && s.dstAcc == 0) || (s.cnt == 6 && s.srcAcc == 0)) && k <= 6
    ensures Walk(Partly(s, m, k), T.MacBytes(m)[k..])
         == if s.cnt == 0 then s.(dstAcc := m, cnt := 6) else s.(srcAcc := m, cnt := 12)
    decreases 6 - k
  {
    if k < 6 {
      OneMacByte(s, m, k);
      hide Quiet, Partly;
      WalkFrom(s, m, k + 1);
      assert T.MacBytes(m)[k..][1..] == T.MacBytes(m)[k + 1..];
    }
  }

  lemma OneMacByte(s: Rx, m: mac, k: nat)
    requires s.st == Header && (s.cnt == 0 || s.cnt == 6) && k < 6
    ensures Quiet(Partly(s, m, k), T.MacBytes(m)[k]) == Partly(s, m, k + 1)
  {
    MacTopStep(m, k);
    hide Shl8, T.MacTop, T.MacByte;
  }

  /** A shift register takes the next byte of an address. */
  lemma MacTopStep(m: mac, k: nat)
    requires k < 6
    ensures Shl8(T.MacTop(m, k), T.MacByte(m, k)) == T.MacTop(m, k + 1)
  {
    MacTopFits(m, k);
    LowFits(T.MacTop(m, k), 7);
  }

  lemma {:induction false} MacTopFits(m: mac, k: nat)
    requires k <= 6
    ensures T.MacTop(m, k) < Radix(k)
    decreases 6 - k
  {
    if k < 6 {
      MacTopFits(m, k + 1);
    }
  }

  /** A tag is skipped: after it the parser is back before an ethertype. */
  lemma WalkTag(s: Rx, t: (u16, u16))
    requires s.st == Header && s.cnt == 12 && s.ethAcc == 0 && s.vlanRem == 0 && IsTpid(t.0)
    ensures Walk(s, [Hi(t.0), Lo(t.0), Hi(t.1), Lo(t.1)]) == s
  {
    var b: seq<byte> := [Hi(t.0), Lo(t.0), Hi(t.1), Lo(t.1)];
    var s1 := Quiet(s, b[0]);
    assert s1 == s.(ethAcc := U16Of(Hi(t.0), 0), cnt := 13);
    assert U16Of(Hi(s1.ethAcc), Lo(t.0)) == t.0;
    var s2 := Quiet(s1, b[1]);
    var s3 := Quiet(s2, b[2]);
    assert Quiet(s3, b[3]) == s;
    WalkFour(s, b);
  }

  lemma WalkFour(s: Rx, b: seq<byte>)
    requires |b| == 4
    ensures Walk(s, b) == Quiet(Quiet(Quiet(Quiet(s, b[0]), b[1]), b[2]), b[3])
  {
    hide Quiet;
    assert b[1..][1..] == b[2..] && b[2..][1..] == b[3..] == [b[3]];
    var s1 := Quiet(s, b[0]);
    var s2 := Quiet(s1, b[1]);
    assert Walk(s, b) == Walk(s1, b[1..]) == Walk(s2, b[2..]) == Walk(Quiet(s2, b[2]), b[3..]);
    WalkOne(Quiet(s2, b[2]), b[3]);
  }

  lemma {:induction false} WalkTags(s: Rx, tags: seq<(u16, u16)>)
    requires s.st == Header && s.cnt == 12 && s.ethAcc == 0 && s.vlanRem == 0
    requires forall i :: 0 <= i < |tags| ==> IsTpid(tags[i].0)
    ensures Walk(s, TagBytes(tags)) == s
    decreases |tags|
  {
    if tags != [] {
      WalkTag(s, tags[0]);
      WalkTags(s, tags[1..]);
      WalkAppend(s, [Hi(tags[0].0), Lo(tags[0].0), Hi(tags[0].1), Lo(tags[0].1)], TagBytes(tags[1..]));
    }
  }

  /** Registers before the ethertype of f. */
  function Addressed(s: Rx, f: Frame): Rx {
    Cleared(s).(st := Header, cnt := 12, dstAcc := f.dst, srcAcc := f.src)
  }

  lemma WalkAddresses(s: Rx, f: Frame)
    requires s.st == Idle && WellFormed(f)
    ensures Walk(s, Lead(f.lead) + [0xD5] + T.MacBytes(f.dst) + T.MacBytes(f.src) + TagBytes(f.tags)) == Addressed(s, f)
  {
    var a := Lead(f.lead) + [0xD5];
    WalkDelimiter(s, f.lead);
    WalkAppend(s, a, T.MacBytes(f.dst));
    WalkSix(Cleared(s).(st := Header), f.dst);
    WalkAppend(s, a + T.MacBytes(f.dst), T.MacBytes(f.src));
    WalkSix(Cleared(s).(st := Header, dstAcc := f.dst, cnt := 6), f.src);
    WalkAppend(s, a + T.MacBytes(f.dst) + T.MacBytes(f.src), TagBytes(f.tags));
    WalkTags(Addressed(s, f), f.tags);
  }

  /** Registers after the header of f: in the payload, or idle again when f is for someone else. */
  function Headed(s: Rx, f: Frame): Rx {
    Addressed(s, f).(st := if ForUs(f.dst) then Payload else Idle, cnt := if ForUs(f.dst) then 1 else 14,
                     ethAcc := f.ethertype, ethertype := f.ethertype, dst := f.dst, src := f.src)
  }

  lemma EthertypeStep(s: Rx, f: Frame)
    requires WellFormed(f)
    ensures Quiet(Addressed(s, f), Hi(f.ethertype)).st == Header
    ensures Quiet(Quiet(Addressed(s, f), Hi(f.ethertype)), Lo(f.ethertype)) == Headed(s, f)
  {
    LowFits(f.dst, 6);
    LowFits(f.src, 6);
    var s2 := Quiet(Addressed(s, f), Hi(f.ethertype));
    assert s2 == Addressed(s, f).(ethAcc := U16Of(Hi(f.ethertype), 0), cnt := 13);
    assert U16Of(Hi(s2.ethAcc), Lo(f.ethertype)) == f.ethertype;
  }

  lemma WalkHead(s: Rx, f: Frame)
    requires s.st == Idle && WellFormed(f)
    ensures HeadBytes(f) != [] && Walk(s, HeadBytes(f)[..|HeadBytes(f)| - 1]).st == Header
    ensures Walk(s, HeadBytes(f)) == Headed(s, f)
  {
    var a := Lead(f.lead) + [0xD5] + T.MacBytes(f.dst) + T.MacBytes(f.src) + TagBytes(f.tags);
    WalkAddresses(s, f);
    EthertypeStep(s, f);
    hide Quiet, Addressed, Headed, TagBytes, Lead, T.MacBytes;
    var s1 := Addressed(s, f);
    WalkAppend(s, a, [Hi(f.ethertype)]);
    WalkOne(s1, Hi(f.ethertype));
    var s2 := Quiet(s1, Hi(f.ethertype));
    WalkAppend(s, a + [Hi(f.ethertype)], [Lo(f.ethertype)]);
    WalkOne(s2, Lo(f.ethertype));
    assert HeadBytes(f)[..|HeadBytes(f)| - 1] == a + [Hi(f.ethertype)];
  }

  // ---------------------------------------------------------------- the payload

  /** The bytes of p not yet making a word after i of them, as a number. */
  function Partial(p: seq<byte>, i: nat): word
    requires i <= |p|
  {
    NumberIsWord(p[i - i % 4..i]);
    Number(p[i - i % 4..i])
  }

  /** The channel after i bytes of p. */
  function Inside(ch: Channel, h: Rx, p: seq<byte>, i: nat): Channel
    requires i <= |p|
  {
    Channel(h.(wrWord := Partial(p, i), wrByte := i % 4, nwords := i / 4), Pack(p)[..i / 4], ch.frame)
  }

  lemma PartialStep(p: seq<byte>, i: nat)
    requires i < |p|
    ensures i % 4 < 3 ==> ShiftIn(Partial(p, i), p[i]) == Partial(p, i + 1)
    ensures i % 4 == 3 ==> ShiftIn(Partial(p, i), p[i]) == Pack(p)[i / 4]
  {
    hide Pack;
    var k := i - i % 4;
    var s := p[k..i + 1];
    assert s[..|s| - 1] == p[k..i];
    NumberFits(p[k..i]);
    LowFits(Number(p[k..i]), 3);
    if i % 4 == 3 {
      PackWord(p, i / 4, 4);
    }
  }

  /** A word of the packed string, from the bytes there are. */
  lemma PackWord(p: seq<byte>, j: nat, n: nat)
    requires 0 < n <= 4 && 4 * j + n <= |p| && (n < 4 ==> 4 * j + n == |p|)
    ensures j < |Pack(p)|
    ensures var t := Number(p[4 * j..4 * j + n]);
      Pack(p)[j] == t * if n == 1 then 0x100_0000 else if n == 2 then 0x1_0000 else if n == 3 then 0x100 else 1
  {
    var k := 4 * j;
    var x1: nat := p[k];
    assert p[k..k + 1][..0] == [] && Number(p[k..k + 1]) == x1;
    if n > 1 {
      var x2: nat := x1 * 0x100 + p[k + 1];
      assert p[k..k + 2][..1] == p[k..k + 1] && Number(p[k..k + 2]) == x2;
      if n > 2 {
        var x3: nat := x2 * 0x100 + p[k + 2];
        assert p[k..k + 3][..2] == p[k..k + 2] && Number(p[k..k + 3]) == x3;
        if n > 3 {
          assert p[k..k + 4][..3] == p[k..k + 3];
          assert Number(p[k..k + 4]) == x3 * 0x100 + p[k + 3];
        }
      }
    }
  }

  lemma FlushWord(p: seq<byte>)
    requires |p| % 4 != 0
    ensures Flush(Partial(p, |p|), |p| % 4) == Pack(p)[|p| / 4]
  {
    hide Pack;
    var n := |p| % 4;
    assert 4 * (|p| / 4) == |p| - n;
    NumberFits(p[|p| - n..|p|]);
    LowFits(Partial(p, |p|), n);
    PackWord(p, |p| / 4, n);
  }

  /** A payload byte that is not the last. */
  lemma InsideStep(ch: Channel, h: Rx, p: seq<byte>, i: nat)
    requires h.st == Payload && i < |p| <= 4092 && Live(Inside(ch, h, p, i))
    ensures Pass(Inside(ch, h, p, i), true, Some(Beat(p[i], false))) == (Inside(ch, h, p, i + 1), None)
  {
    hide Partial, Pack, Live, Stage, ShiftIn;
    PartialStep(p, i);
    var c := Inside(ch, h, p, i);
    StepCovered(c.rx, Beat(p[i], false), |c.fifo|);
    if i % 4 == 3 {
      PartialZero(p, i + 1);
      assert Pack(p)[..i / 4] + [Pack(p)[i / 4]] == Pack(p)[..i / 4 + 1];
    } else {
      assert c.fifo + [] == c.fifo;
    }
  }

  lemma PartialZero(p: seq<byte>, i: nat)
    requires i <= |p| && i % 4 == 0
    ensures Partial(p, i) == 0
  {
  }

  /** What a completed frame leaves: an idle parser, an empty FIFO, the first words staged. */
  function Report(f: Frame): Arrival {
    var w := Pack(f.rest);
    Arrival(Delivery(f.ethertype, f.dst, f.src, |w|), w[..Staged(|w|)])
  }

  /** The channel after a delivered frame. */
  function After(ch: Channel, h: Rx, p: seq<byte>): Channel
    requires p != [] && |ch.frame| == FRAME_BUF_WORDS
  {
    var w := Pack(p);
    var k := |p| % 4;
    Channel(h.(st := Idle, wrWord := if k == 0 then 0 else Partial(p, |p|), wrByte := k, nwords := |w|),
            [], w[..Staged(|w|)] + ch.frame[Staged(|w|)..])
  }

  /** The last payload byte completes the frame. */
  lemma InsideLast(ch: Channel, h: Rx, p: seq<byte>)
    requires h.st == Payload && 0 < |p| <= 4092 && Live(Inside(ch, h, p, |p| - 1))
    ensures Pass(Inside(ch, h, p, |p| - 1), true, Some(Beat(p[|p| - 1], true)))
         == (After(ch, h, p),
             Some(Arrival(Delivery(h.ethertype, h.dst, h.src, |Pack(p)|), Pack(p)[..Staged(|Pack(p)|)])))
  {
    hide Partial, Pack, Flush, ShiftIn;
    var i := |p| - 1;
    var c := Inside(ch, h, p, i);
    var w := Pack(p);
    PartialStep(p, i);
    if i % 4 != 3 {
      FlushWord(p);
    }
    assert c.fifo + [w[i / 4]] == w;
    StepCovered(c.rx, Beat(p[i], true), |c.fifo|);
    assert w[|w|..] == [];
  }

  lemma {:induction false} FeedRest(ch: Channel, h: Rx, p: seq<byte>, i: nat)
    requires h.st == Payload && i < |p| <= 4092 && Live(Inside(ch, h, p, i))
    ensures |ch.frame| == FRAME_BUF_WORDS
    ensures Feed(Inside(ch, h, p, i), T.Beats(p)[i..])
         == (After(ch, h, p), [Arrival(Delivery(h.ethertype, h.dst, h.src, |Pack(p)|), Pack(p)[..Staged(|Pack(p)|)])])
    decreases |p| - i
  {
    hide Pass, Pack, After;
    var b := T.Beats(p)[i..];
    assert b[0] == Beat(p[i], i == |p| - 1) && b[1..] == T.Beats(p)[i + 1..];
    if i < |p| - 1 {
      InsideStep(ch, h, p, i);
      hide Inside;
      FeedRest(ch, h, p, i + 1);
      var rest := Feed(Inside(ch, h, p, i + 1), b[1..]).1;
      assert [] + rest == rest;
    } else {
      InsideLast(ch, h, p);
      hide Inside;
      var a := Arrival(Delivery(h.ethertype, h.dst, h.src, |Pack(p)|), Pack(p)[..Staged(|Pack(p)|)]);
      assert b[1..] == [];
      assert [a] + [] == [a];
    }
  }

  /** Between frames: the parser is idle and the FIFO empty. */
  predicate Ready(ch: Channel) {
    Live(ch) && ch.rx.st == Idle && ch.fifo == []
  }

  lemma BeatsSplit(h: seq<byte>, p: seq<byte>)
    requires p != []
    ensures T.Beats(h + p)[..|h|] + T.Beats(p) == T.Beats(h + p)
    ensures forall i :: 0 <= i < |h| ==> T.Beats(h + p)[..|h|][i] == Beat(h[i], false)
  {
  }

  /** A well-formed frame for the board, with any preamble of 7 to 254 bytes and any number of VLAN tags, is
      delivered exactly once, on its last byte, with its own addresses, ethertype and words. */
  lemma FrameDelivered(ch: Channel, f: Frame)
    requires Ready(ch) && WellFormed(f) && ForUs(f.dst)
    ensures Feed(ch, T.Beats(WireBytes(f))) == (After(ch, Headed(ch.rx, f), f.rest), [Report(f)])
    ensures Ready(After(ch, Headed(ch.rx, f), f.rest))
    ensures Feed(ch, T.Beats(WireBytes(f))[..|WireBytes(f)| - 1]).1 == []
  {
    Unflagged(ch, T.Beats(WireBytes(f))[..|WireBytes(f)| - 1]);
    HeadPasses(ch, f);
    var h := Headed(ch.rx, f);
    var b := T.Beats(WireBytes(f));
    BeatsSplit(HeadBytes(f), f.rest);
    var n := |HeadBytes(f)|;
    FeedAppend(ch, b[..n], T.Beats(f.rest));
    assert ch.(rx := h) == Inside(ch, h, f.rest, 0);
    FeedRest(ch, h, f.rest, 0);
    assert T.Beats(f.rest)[0..] == T.Beats(f.rest);
    assert [] + [Report(f)] == [Report(f)];
  }

  /** No byte reports a frame but a flagged one. */
  lemma {:induction false} Unflagged(ch: Channel, beats: seq<Beat>)
    requires Live(ch) && forall i :: 0 <= i < |beats| ==> !beats[i].last
    ensures Feed(ch, beats).1 == []
    decreases |beats|
  {
    hide Live;
    if beats != [] {
      NoReport(ch, beats[0]);
      Unflagged(Pass(ch, true, Some(beats[0])).0, beats[1..]);
    }
  }

  lemma NoReport(ch: Channel, b: Beat)
    requires Live(ch) && !b.last
    ensures Pass(ch, true, Some(b)).1 == None
  {
    StepCovered(ch.rx, b, |ch.fifo|);
  }

  lemma HeadPasses(ch: Channel, f: Frame)
    requires Ready(ch) && WellFormed(f)
    ensures var b := T.Beats(WireBytes(f))[..|HeadBytes(f)|];
      Feed(ch, b) == (ch.(rx := Headed(ch.rx, f)), []) && Live(ch.(rx := Headed(ch.rx, f)))
  {
    hide Headed, HeadBytes, Live;
    WalkHead(ch.rx, f);
    BeatsSplit(HeadBytes(f), f.rest);
    FeedWalk(ch, T.Beats(WireBytes(f))[..|HeadBytes(f)|], HeadBytes(f));
  }

  function WireAll(fs: seq<Frame>): seq<Beat> {
    if fs == [] then [] else T.Beats(WireBytes(fs[0])) + WireAll(fs[1..])
  }

  // ---------------------------------------------------------------- round trip

  /** The wire frame of a request, as a received frame. */
  function SentFrame(r: TxReq, p: seq<byte>): Frame {
    Frame(7, r.dst, BOARD_MAC, if r.vlan then [(TPID_VLAN, r.tci)] else [], r.ethertype,
          T.Padded(p) + Crc.FcsBytes(Crc.Run(Crc.INIT, T.Body(r, p))))
  }

  lemma SentBytes(r: TxReq, p: seq<byte>)
    ensures T.FrameBytes(r, p) == WireBytes(SentFrame(r, p))
  {
    hide Crc.Run, Crc.FcsBytes, T.MacBytes, T.Padded, TagBytes, Lead;
    LeadSeven();
    TagOne(r, p);
    var fcs := Crc.FcsBytes(Crc.Run(Crc.INIT, T.Body(r, p)));
    var tag := if r.vlan then [0x81, 0x00, Hi(r.tci), Lo(r.tci)] else [];
    Regroup(T.PREAMBLE, T.MacBytes(r.dst), T.MacBytes(BOARD_MAC), tag, Hi(r.ethertype), Lo(r.ethertype), T.Padded(p),
        fcs);
  }

  lemma Regroup(pre: seq<byte>, m1: seq<byte>, m2: seq<byte>, t: seq<byte>, eh: byte, el: byte,
                pad: seq<byte>, fcs: seq<byte>)
    ensures pre + (m1 + m2 + t + [eh, el] + pad) + fcs == (pre + m1 + m2 + t + [eh] + [el]) + (pad + fcs)
  {
    assert [eh, el] == [eh] + [el];
  }

  lemma TagOne(r: TxReq, p: seq<byte>)
    ensures TagBytes(SentFrame(r, p).tags) == if r.vlan then [0x81, 0x00, Hi(r.tci), Lo(r.tci)] else []
  {
    hide Crc.Run, Crc.FcsBytes;
    if r.vlan {
      assert TagBytes([(TPID_VLAN, r.tci)][1..]) == [];
    }
  }

  lemma LeadSeven()
    ensures Lead(7) + [0xD5] == T.PREAMBLE
  {
    assert Lead(1) == [0x55];
    assert Lead(2) == [0x55, 0x55];
    assert Lead(3) == [0x55, 0x55, 0x55];
    assert Lead(4) == [0x55, 0x55, 0x55, 0x55];
    assert Lead(5) == [0x55, 0x55, 0x55, 0x55, 0x55];
    assert Lead(6) == [0x55, 0x55, 0x55, 0x55, 0x55, 0x55];
  }

  /** Round trip: a request to the board or broadcast address, tagged or not, printed by an idle MAC and parsed byte
      by byte, is delivered exactly once, on its last byte, with the same destination and ethertype, the board as
      source, and the zero-padded payload followed by its check sequence as words. */
  lemma RoundTrip(s: T.Tx, r: TxReq, buffer: seq<word>, ch: Channel)
    requires s.st == T.Idle && r.request && T.LegalReq(r, |buffer|)
    requires ForUs(r.dst) && !IsTpid(r.ethertype) && r.len <= 4088 && Ready(ch)
    ensures var p := W.PayloadOf(r, buffer);
      var out := W.Stream(s, r, buffer, |W.WireOf(r, buffer)| + 1).2;
      var words := Pack(T.Padded(p) + Crc.FcsBytes(Crc.Run(Crc.INIT, T.Body(r, p))));
      && Ready(Feed(ch, out).0)
      && Feed(ch, out).1 == [Arrival(Delivery(r.ethertype, r.dst, BOARD_MAC, |words|), words[..Staged(|words|)])]
      && out != [] && Feed(ch, out[..|out| - 1]).1 == []
  {
    hide Crc.Run, Crc.FcsBytes, T.FrameBytes, T.Body, WireBytes, Ready;
    var p := W.PayloadOf(r, buffer);
    W.SendsWire(s, r, buffer);
    SentBytes(r, p);
    FrameDelivered(ch, SentFrame(r, p));
  }
}
