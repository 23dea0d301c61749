/** What the parser makes of bytes it is not in a payload for: the rest of a frame for another station is searched for a
    preamble, and what that search does depends on a few bytes only. */
module MacForeign {
  import opened Bytes
  import opened Layout
  import opened MacRx
  import opened MacFrames
  import T = MacTx

  // ---------------------------------------------------------------- hunting for a preamble

  const MARK: byte := 0x55
  const DELIMITER: byte := 0xD5

  /** Six marks in a row lock the parser. */
  predicate SixAt(bs: seq<byte>, s: nat) {
    s + 6 <= |bs| && forall i :: s <= i < s + 6 ==> bs[i] == MARK
  }

  /** Where six marks in a row first begin, or the end. */
  function Lock(bs: seq<byte>, from: nat): (s: nat)
    requires from <= |bs|
    ensures from <= s <= |bs|
    ensures s < |bs| ==> SixAt(bs, s)
    ensures forall r :: from <= r < s ==> !SixAt(bs, r)
    decreases |bs| - from
  {
    if from == |bs| || SixAt(bs, from) then from else Lock(bs, from + 1)
  }

  /** The first delimiter from a position on, or the end. */
  function Delimiter(bs: seq<byte>, from: nat): (d: nat)
    ensures from <= d
    ensures d < |bs| ==> bs[d] == DELIMITER
    ensures d > |bs| ==> d == from
    ensures forall i :: from <= i < d && i < |bs| ==> bs[i] != DELIMITER
    decreases |bs| - from
  {
    if from >= |bs| || bs[from] == DELIMITER then from else Delimiter(bs, from + 1)
  }

  /** What a search ends in: no preamble under way, one under way with so many bytes counted, or a header that begins at
      a position. */
  datatype Hunt = Nothing | Partway(count: byte) | Synced(at: nat)

  /** The search: shorter runs of marks are forgotten at the next other byte; after six in a row the next byte counts
      whatever it is, and the first delimiter behind that begins a header. The byte counter has 8 bits: a delimiter more
      than 254 bytes after the lock comes too late, and the search begins anew. */
  function Search(bs: seq<byte>): (h: Hunt)
    ensures h.Synced? ==> 8 <= h.at <= |bs|
    decreases |bs|
  {
    var s := Lock(bs, 0);
    if s == |bs| then
      TrailShort(bs);
      if Trail(bs) == 0 then Nothing else Partway(Trail(bs))
    else
      var d := Delimiter(bs, s + 7);
      if d < |bs| && d <= s + 254 then Synced(d + 1)
      else if |bs| < s + 256 then Partway(|bs| - s)
      else if |bs| == s + 256 && bs[s + 255] == MARK then Partway(0)
      else Shifted(Search(bs[s + 256..]), s + 256)
  }

  function Shifted(h: Hunt, n: nat): Hunt {
    if h.Synced? then Synced(n + h.at) else h
  }

  /** The registers every search starts from: those of a parser that has seen nothing. */
  function Base(s: Rx): Rx { Cleared(s).(st := Idle) }

  /** An idle parser after some bytes is as good as one that saw none. */
  predicate Idling(u: Rx, s: Rx) { u.st == Idle && Base(u) == Base(s) }

  function Counting(s: Rx, n: byte): Rx { Base(s).(st := Preamble, cnt := n) }

  /** How many marks a string ends in. */
  function Trail(bs: seq<byte>): nat
    decreases |bs|
  {
    if bs == [] || bs[|bs| - 1] != MARK then 0 else 1 + Trail(bs[..|bs| - 1])
  }

  lemma {:induction false} TrailMarks(bs: seq<byte>)
    ensures Trail(bs) <= |bs| && forall i :: |bs| - Trail(bs) <= i < |bs| ==> bs[i] == MARK
    decreases |bs|
  {
    if bs != [] && bs[|bs| - 1] == MARK {
      TrailMarks(bs[..|bs| - 1]);
    }
  }

  lemma TrailShort(bs: seq<byte>)
    requires forall r :: 0 <= r < |bs| ==> !SixAt(bs, r)
    ensures Trail(bs) < 6
  {
    TrailMarks(bs);
    assert Trail(bs) >= 6 ==> SixAt(bs, |bs| - 6);
  }

  /** Before six marks in a row: idle, or counting the marks seen last. */
  lemma {:induction false} WalkUnlocked(s: Rx, bs: seq<byte>)
    requires s.st == Idle && forall r :: 0 <= r < |bs| ==> !SixAt(bs, r)
    ensures Trail(bs) < 6
    ensures Trail(bs) == 0 ==> Idling(Walk(s, bs), s)
    ensures Trail(bs) > 0 ==> Walk(s, bs) == Counting(s, Trail(bs))
    decreases |bs|
  {
    TrailShort(bs);
    if bs != [] {
      var k := |bs| - 1;
      forall r | 0 <= r < k ensures !SixAt(bs[..k], r) {
        assert SixAt(bs[..k], r) ==> SixAt(bs, r);
      }
      WalkUnlocked(s, bs[..k]);
      assert bs == bs[..k] + [bs[k]];
      WalkAppend(s, bs[..k], [bs[k]]);
      WalkOne(Walk(s, bs[..k]), bs[k]);
    }
  }

  /** Locked: every byte counts until the counter wraps. */
  lemma {:induction false} WalkLocked(s: Rx, w: seq<byte>)
    requires |w| <= 249 && forall i :: 1 <= i < |w| ==> w[i] != DELIMITER
    ensures Walk(Counting(s, 6), w) == Counting(s, 6 + |w|)
    decreases |w|
  {
    if w != [] {
      var k := |w| - 1;
      WalkLocked(s, w[..k]);
      assert w == w[..k] + [w[k]];
      WalkAppend(Counting(s, 6), w[..k], [w[k]]);
      WalkOne(Counting(s, 6 + k), w[k]);
    }
  }

  lemma SixIsLead()
    ensures Lead(6) == [MARK, MARK, MARK, MARK, MARK, MARK]
  {
    assert Lead(1) == [MARK];
    assert Lead(2) == [MARK, MARK];
    assert Lead(3) == [MARK, MARK, MARK];
    assert Lead(4) == [MARK, MARK, MARK, MARK];
    assert Lead(5) == [MARK, MARK, MARK, MARK, MARK];
  }

  lemma NoSixBefore(bs: seq<byte>, k: nat)
    requires k <= |bs| && forall r :: 0 <= r < k ==> !SixAt(bs, r)
    ensures forall r :: 0 <= r < k ==> !SixAt(bs[..k], r)
  {
    assert forall r :: 0 <= r < k && SixAt(bs[..k], r) ==> SixAt(bs, r);
  }

  /** Up to the lock the parser is idle. */
  lemma IdleToLock(s: Rx, bs: seq<byte>)
    requires s.st == Idle && Lock(bs, 0) < |bs|
    ensures Idling(Walk(s, bs[..Lock(bs, 0)]), s)
  {
    hide Walk, Quiet, Cleared;
    hide Trail, Lock;
    var k := Lock(bs, 0);
    var a := bs[..k];
    NoSixBefore(bs, k);
    WalkUnlocked(s, a);
    NoMarkBefore(bs);
  }

  lemma NoMarkBefore(bs: seq<byte>)
    requires Lock(bs, 0) < |bs|
    ensures Trail(bs[..Lock(bs, 0)]) == 0
  {
    var k := Lock(bs, 0);
    if k > 0 {
      assert bs[k - 1] == MARK ==> SixAt(bs, k - 1);
    }
  }

  lemma LeadCounts(u: Rx, s: Rx, n: nat)
    requires Idling(u, s) && 1 <= n <= 254
    ensures Walk(u, Lead(n)) == Counting(s, n)
  {
    hide Walk, Quiet, Lead;
    WalkLead(u, n);
    assert Cleared(u).(st := Preamble, cnt := n) == Base(u).(st := Preamble, cnt := n);
  }

  /** At the lock six marks are counted. */
  lemma WalkToLock(s: Rx, bs: seq<byte>)
    requires s.st == Idle && Lock(bs, 0) < |bs|
    ensures Walk(s, bs[..Lock(bs, 0) + 6]) == Counting(s, 6)
  {
    hide Walk, Quiet, Cleared, Lead;
    var k := Lock(bs, 0);
    IdleToLock(s, bs);
    SixIsLead();
    assert bs[k..k + 6] == [MARK, MARK, MARK, MARK, MARK, MARK];
    assert bs[..k + 6] == bs[..k] + bs[k..k + 6];
    WalkAppend(s, bs[..k], bs[k..k + 6]);
    LeadCounts(Walk(s, bs[..k]), s, 6);
  }

  /** From the lock to one byte before or at the wrap. */
  lemma WalkPastLock(s: Rx, bs: seq<byte>, n: nat)
    requires s.st == Idle && Lock(bs, 0) < |bs| && Lock(bs, 0) + 6 <= n <= |bs| && n <= Lock(bs, 0) + 255
    requires n <= Delimiter(bs, Lock(bs, 0) + 7) || n == Lock(bs, 0) + 6
    ensures Walk(s, bs[..n]) == Counting(s, n - Lock(bs, 0))
  {
    hide Walk, Quiet, Cleared, Lock, Delimiter;
    var k := Lock(bs, 0);
    WalkToLock(s, bs);
    var w := bs[k + 6..n];
    assert bs[..n] == bs[..k + 6] + w;
    WalkAppend(s, bs[..k + 6], w);
    WalkLocked(s, w);
  }

  /** A counter wrapped to zero is as good as an idle parser, as long as something follows. */
  lemma WrappedAlike(s: Rx, bs: seq<byte>)
    requires bs != []
    ensures Walk(Counting(s, 0), bs).st == Walk(Base(s), bs).st
    ensures |bs| > 1 || bs[0] == MARK ==> Walk(Counting(s, 0), bs) == Walk(Base(s), bs)
    ensures Base(Quiet(Counting(s, 0), bs[0])) == Base(s)
  {
    var u, v := Quiet(Counting(s, 0), bs[0]), Quiet(Base(s), bs[0]);
    if bs[0] == MARK {
      assert u == v;
    } else {
      assert u.st == v.st == Idle && Base(u) == Base(v);
    }
  }

  /** The byte on which the counter wraps. */
  lemma WalkWrap(s: Rx, b: byte)
    ensures Quiet(Counting(s, 255), b) == if b == MARK then Counting(s, 0) else Base(s)
  {
  }

  /** What a search leaves behind. */
  predicate Hunted(s: Rx, bs: seq<byte>, h: Hunt) {
    match h
    case Nothing => Idling(Walk(s, bs), s)
    case Partway(n) => Walk(s, bs) == Counting(s, n)
    case Synced(j) => j <= |bs| && Walk(s, bs[..j]) == Base(s).(st := Header)
  }

  lemma {:induction false} HuntWalk(s: Rx, bs: seq<byte>)
    requires s.st == Idle
    ensures Hunted(s, bs, Search(bs))
    decreases |bs|
  {
    hide Walk, Quiet, Lock, Delimiter, Cleared;
    var k := Lock(bs, 0);
    if k == |bs| {
      WalkUnlocked(s, bs);
    } else {
      var d := Delimiter(bs, k + 7);
      if d < |bs| && d <= k + 254 {
        WalkPastLock(s, bs, d);
        WalkDelimited(s, bs, d);
      } else if |bs| <= k + 255 {
        WalkPastLock(s, bs, |bs|);
        assert bs[..|bs|] == bs;
      } else {
        HuntPastWrap(s, bs);
      }
    }
  }

  lemma CountingBase(s: Rx, n: nat)
    requires n < 256
    ensures Counting(s, n).st == Preamble && Base(Counting(s, n)) == Base(s) && Base(Base(s)) == Base(s)
  {
  }

  lemma WalkDelimited(s: Rx, bs: seq<byte>, d: nat)
    requires d < |bs| && bs[d] == DELIMITER
    requires Lock(bs, 0) + 7 <= d <= Lock(bs, 0) + 254 && Walk(s, bs[..d]) == Counting(s, d - Lock(bs, 0))
    ensures Walk(s, bs[..d + 1]) == Base(s).(st := Header)
  {
    assert bs[..d + 1] == bs[..d] + [bs[d]];
    WalkAppend(s, bs[..d], [bs[d]]);
    WalkOne(Walk(s, bs[..d]), bs[d]);
  }

  lemma {:induction false} HuntPastWrap(s: Rx, bs: seq<byte>)
    requires s.st == Idle && Lock(bs, 0) < |bs| && Lock(bs, 0) + 255 < |bs|
    requires Delimiter(bs, Lock(bs, 0) + 7) >= |bs| || Delimiter(bs, Lock(bs, 0) + 7) > Lock(bs, 0) + 254
    ensures Hunted(s, bs, Search(bs))
    decreases |bs|, 0
  {
    hide Walk, Quiet, Lock, Delimiter, Cleared, Hunted, Search;
    var k := Lock(bs, 0);
    var n := k + 255;
    WalkPastLock(s, bs, n);
    assert bs[..n + 1] == bs[..n] + [bs[n]];
    WalkAppend(s, bs[..n], [bs[n]]);
    WalkOne(Counting(s, 255), bs[n]);
    WalkWrap(s, bs[n]);
    var rest := bs[n + 1..];
    CountingBase(s, 0);
    HuntWalk(Base(s), rest);
    HuntJoined(s, bs, n + 1, rest);
    SearchPastWrap(bs);
  }

  lemma SearchPastWrap(bs: seq<byte>)
    requires Lock(bs, 0) < |bs| && Lock(bs, 0) + 255 < |bs|
    requires Delimiter(bs, Lock(bs, 0) + 7) >= |bs| || Delimiter(bs, Lock(bs, 0) + 7) > Lock(bs, 0) + 254
    ensures var n := Lock(bs, 0) + 255;
      Search(bs) == if bs[n] == MARK && |bs| == n + 1 then Partway(0) else Shifted(Search(bs[n + 1..]), n + 1)
  {
  }

  /** The search resumed behind a wrap. */
  lemma HuntJoined(s: Rx, bs: seq<byte>, n: nat, rest: seq<byte>)
    requires s.st == Idle && 0 < n <= |bs| && rest == bs[n..]
    requires Walk(s, bs[..n]) == if bs[n - 1] == MARK then Counting(s, 0) else Base(s)
    requires Hunted(Base(s), rest, Search(rest))
    ensures Hunted(s, bs, if bs[n - 1] == MARK && rest == [] then Partway(0) else Shifted(Search(rest), n))
  {
    hide Walk, Quiet, Lock, Delimiter, Cleared, Search;
    var v := Walk(s, bs[..n]);
    CountingBase(s, 0);
    assert bs == bs[..n] + rest;
    WalkAppend(s, bs[..n], rest);
    if rest == [] {
      EmptyWalk(v);
      EmptyWalk(Base(s));
    } else {
      if bs[n - 1] == MARK {
        WrappedResult(s, rest);
      }
      if Search(rest).Synced? {
        var j := Search(rest).at;
        assert bs[..n + j] == bs[..n] + rest[..j];
        WalkAppend(s, bs[..n], rest[..j]);
        if bs[n - 1] == MARK {
          WrappedAlike(s, rest[..j]);
        }
      }
    }
  }

  lemma EmptyWalk(s: Rx)
    ensures Walk(s, []) == s
  {
  }

  /** After a wrap onto a mark the search ends as if it began. */
  lemma WrappedResult(s: Rx, rest: seq<byte>)
    requires rest != []
    ensures Walk(Counting(s, 0), rest).st == Walk(Base(s), rest).st
    ensures Base(Walk(Counting(s, 0), rest)) == Base(Walk(Base(s), rest))
    ensures Search(rest).Partway? ==> Walk(Counting(s, 0), rest) == Walk(Base(s), rest)
  {
    hide Cleared;
    WrappedAlike(s, rest);
    if |rest| == 1 && rest[0] != MARK {
      assert rest == [rest[0]];
      WalkOne(Counting(s, 0), rest[0]);
      WalkOne(Base(s), rest[0]);
      OneIdle(s, rest[0]);
    }
  }

  lemma OneIdle(s: Rx, b: byte)
    requires b != MARK
    ensures Base(Quiet(Base(s), b)) == Base(s)
  {
  }

  // ---------------------------------------------------------------- a header

  /** Where the ethertype behind any tags from position i on ends, or past the end if it is cut off. */
  function TagsEnd(h: seq<byte>, i: nat): (e: nat)
    ensures e > |h| || i + 2 <= e
    decreases |h| - i
  {
    if i + 2 > |h| then |h| + 1
    else if !IsTpid(U16Of(h[i], h[i + 1])) then i + 2
    else if i + 4 > |h| then |h| + 1
    else TagsEnd(h, i + 4)
  }

  /** Where a header ends. */
  function HeaderEnd(h: seq<byte>): (e: nat)
    ensures e > |h| || 14 <= e
  {
    if |h| < 12 then |h| + 1 else TagsEnd(h, 12)
  }

  /** Registers behind a header. */
  function HeadedBy(s: Rx, h: seq<byte>): Rx
    requires HeaderEnd(h) <= |h|
  {
    var e := HeaderEnd(h);
    Headed(s, Frame(7, MacOf(h[..6]), MacOf(h[6..12]), [], U16Of(h[e - 2], h[e - 1]), [0]))
  }

  predicate InHeader(s: Rx) { s.st == Header || s.st == Vlan }

  lemma MacBytesOf(b: seq<byte>)
    requires |b| == 6
    ensures T.MacBytes(MacOf(b)) == b
  {
    hide T.MacByte, MacOf;
    MacByteOf(b, 0);
    MacByteOf(b, 1);
    MacByteOf(b, 2);
    MacByteOf(b, 3);
    MacByteOf(b, 4);
    MacByteOf(b, 5);
  }

  lemma MacByteOf(b: seq<byte>, k: nat)
    requires |b| == 6 && k < 6
    ensures T.MacByte(MacOf(b), k) == b[k]
  {
    hide MacOf;
    TopIsNumber(b, k + 1);
    assert b[..k + 1][..k] == b[..k] && b[..k + 1][k] == b[k];
  }

  /** The first k bytes of an address spell its upper part. */
  lemma {:induction false} TopIsNumber(b: seq<byte>, k: nat)
    requires |b| == 6 && k <= 6
    ensures T.MacTop(MacOf(b), k) == Number(b[..k])
    decreases 6 - k
  {
    if k == 6 {
      assert b[..6] == b;
    } else {
      TopIsNumber(b, k + 1);
      assert b[..k + 1][..k] == b[..k];
    }
  }

  /** Address bytes are only counted. */
  lemma {:induction false} WalkShort(s: Rx, bs: seq<byte>)
    requires s.st == Header && s.cnt + |bs| <= 13
    ensures Walk(s, bs).st == Header
    decreases |bs|
  {
    if bs != [] {
      HeaderCounts(s, bs[0]);
      hide Quiet;
      WalkShort(Quiet(s, bs[0]), bs[1..]);
    }
  }

  lemma HeaderCounts(s: Rx, b: byte)
    requires s.st == Header && s.cnt < 13
    ensures Quiet(s, b).st == Header && Quiet(s, b).cnt == s.cnt + 1
  {
    hide Shl8;
  }

  lemma WalkAddress(s: Rx, h: seq<byte>)
    requires |h| >= 12
    ensures Walk(Base(s).(st := Header), h[..12])
         == Addressed(s, Frame(7, MacOf(h[..6]), MacOf(h[6..12]), [], 0, [0]))
  {
    hide Walk, Quiet, T.MacBytes, MacOf;
    var u := Base(s).(st := Header);
    MacBytesOf(h[..6]);
    MacBytesOf(h[6..12]);
    assert h[..12] == h[..6] + h[6..12];
    WalkAppend(u, h[..6], h[6..12]);
    WalkSix(u, MacOf(h[..6]));
    WalkSix(u.(dstAcc := MacOf(h[..6]), cnt := 6), MacOf(h[6..12]));
  }

  /** Before an ethertype or tag type. */
  predicate AtType(a: Rx) { a.st == Header && a.cnt == 12 && a.ethAcc == 0 && a.vlanRem == 0 }

  /** Tags are skipped; what is cut off leaves the parser in the header. */
  lemma {:induction false} WalkTypes(a: Rx, h: seq<byte>, i: nat)
    requires AtType(a) && i <= |h|
    ensures TagsEnd(h, i) > |h| ==> InHeader(Walk(a, h[i..]))
    ensures TagsEnd(h, i) <= |h| ==>
      Walk(a, h[i..TagsEnd(h, i) - 1]).st == Header
      && Walk(a, h[i..TagsEnd(h, i)]) == Quiet(Quiet(a, h[TagsEnd(h, i) - 2]), h[TagsEnd(h, i) - 1])
    decreases |h| - i
  {
    hide Walk, Quiet, IsTpid;
    if i + 2 > |h| {
      WalkShort(a, h[i..]);
    } else if !IsTpid(U16Of(h[i], h[i + 1])) {
      assert h[i..i + 1] == [h[i]] && h[i..i + 2] == [h[i]] + [h[i + 1]];
      WalkAppend(a, [h[i]], [h[i + 1]]);
      WalkOne(a, h[i]);
      WalkOne(Quiet(a, h[i]), h[i + 1]);
      HeaderCounts(a, h[i]);
    } else if i + 4 > |h| {
      CutTag(a, h[i..]);
    } else {
      SkipTag(a, h, i);
    }
  }

  lemma CutTag(a: Rx, t: seq<byte>)
    requires AtType(a) && 2 <= |t| <= 3 && IsTpid(U16Of(t[0], t[1]))
    ensures InHeader(Walk(a, t))
  {
    var s2 := Quiet(Quiet(a, t[0]), t[1]);
    assert U16Of(Hi(U16Of(t[0], 0)), t[1]) == U16Of(t[0], t[1]);
    assert s2.st == Vlan && s2.vlanRem == 2;
    hide Quiet;
    assert Walk(a, t) == Walk(Quiet(a, t[0]), t[1..]) == Walk(s2, t[1..][1..]);
    if |t| == 3 {
      assert t[1..][1..] == [t[2]];
      WalkOne(s2, t[2]);
    }
  }

  lemma {:induction false} SkipTag(a: Rx, h: seq<byte>, i: nat)
    requires AtType(a) && i + 4 <= |h| && IsTpid(U16Of(h[i], h[i + 1]))
    ensures TagsEnd(h, i) > |h| ==> InHeader(Walk(a, h[i..]))
    ensures TagsEnd(h, i) <= |h| ==>
      Walk(a, h[i..TagsEnd(h, i) - 1]).st == Header
      && Walk(a, h[i..TagsEnd(h, i)]) == Quiet(Quiet(a, h[TagsEnd(h, i) - 2]), h[TagsEnd(h, i) - 1])
    decreases |h| - i, 0
  {
    hide Walk, Quiet, IsTpid;
    var t := h[i..i + 4];
    OneTag(a, t);
    WalkTypes(a, h, i + 4);
    var e := TagsEnd(h, i + 4);
    assert TagsEnd(h, i) == e;
    if e > |h| {
      assert h[i..] == t + h[i + 4..];
      WalkAppend(a, t, h[i + 4..]);
    } else {
      assert h[i..e - 1] == t + h[i + 4..e - 1] && h[i..e] == t + h[i + 4..e];
      WalkAppend(a, t, h[i + 4..e - 1]);
      WalkAppend(a, t, h[i + 4..e]);
    }
  }

  lemma OneTag(a: Rx, t: seq<byte>)
    requires AtType(a) && |t| == 4 && IsTpid(U16Of(t[0], t[1]))
    ensures Walk(a, t) == a
  {
    hide Walk, Quiet, IsTpid, U16Of, Hi, Lo;
    WalkTag(a, (U16Of(t[0], t[1]), U16Of(t[2], t[3])));
    HiLoOf(t[0], t[1]);
    HiLoOf(t[2], t[3]);
    assert [Hi(U16Of(t[0], t[1])), Lo(U16Of(t[0], t[1])), Hi(U16Of(t[2], t[3])), Lo(U16Of(t[2], t[3]))] == t;
  }

  lemma HiLoOf(a: byte, b: byte)
    ensures Hi(U16Of(a, b)) == a && Lo(U16Of(a, b)) == b
  {
  }

  /** What a header leaves behind. */
  lemma WalkHeader(s: Rx, h: seq<byte>)
    ensures HeaderEnd(h) > |h| ==> InHeader(Walk(Base(s).(st := Header), h))
    ensures HeaderEnd(h) <= |h| ==>
      Walk(Base(s).(st := Header), h[..HeaderEnd(h) - 1]).st == Header
      && Walk(Base(s).(st := Header), h[..HeaderEnd(h)]) == HeadedBy(s, h)
  {
    hide Walk, Quiet, MacOf, TagsEnd;
    var u := Base(s).(st := Header);
    if |h| < 12 {
      WalkShort(u, h);
    } else {
      var e := HeaderEnd(h);
      WalkAddress(s, h);
      var a := Walk(u, h[..12]);
      WalkTypes(a, h, 12);
      if e > |h| {
        assert h == h[..12] + h[12..];
        WalkAppend(u, h[..12], h[12..]);
      } else {
        assert h[..e - 1] == h[..12] + h[12..e - 1] && h[..e] == h[..12] + h[12..e];
        WalkAppend(u, h[..12], h[12..e - 1]);
        WalkAppend(u, h[..12], h[12..e]);
        TypeEnds(h, 12);
        LastType(s, h);
      }
    }
  }

  /** The two bytes a complete header ends in are no tag type. */
  lemma {:induction false} TypeEnds(h: seq<byte>, i: nat)
    requires TagsEnd(h, i) <= |h|
    ensures !IsTpid(U16Of(h[TagsEnd(h, i) - 2], h[TagsEnd(h, i) - 1]))
    decreases |h| - i
  {
    if IsTpid(U16Of(h[i], h[i + 1])) {
      TypeEnds(h, i + 4);
    }
  }

  lemma LastType(s: Rx, h: seq<byte>)
    requires |h| >= 12 && HeaderEnd(h) <= |h| && !IsTpid(U16Of(h[HeaderEnd(h) - 2], h[HeaderEnd(h) - 1]))
    ensures var e := HeaderEnd(h);
      var a := Addressed(s, Frame(7, MacOf(h[..6]), MacOf(h[6..12]), [], 0, [0]));
      Quiet(Quiet(a, h[e - 2]), h[e - 1]) == HeadedBy(s, h)
  {
    hide MacOf, HeaderEnd, Quiet, Headed;
    var e := HeaderEnd(h);
    var x := U16Of(h[e - 2], h[e - 1]);
    var f := Frame(7, MacOf(h[..6]), MacOf(h[6..12]), [], x, [0]);
    assert Hi(x) == h[e - 2] && Lo(x) == h[e - 1];
    EthertypeStep(s, f);
  }

  // ---------------------------------------------------------------- the fate of a byte string

  /** What becomes of bytes given to an idle parser, the last one flagged: they leave it idle again without a report,
      in a preamble with so many bytes counted, in a header or before the first byte of a payload, or they contain a
      frame for the board that ends with them. */
  datatype Fate = Clean | Hanging(count: byte) | Stuck | Delivers(report: Arrival)

  function FateOf(bs: seq<byte>): Fate
    decreases |bs|
  {
    match Search(bs)
    case Nothing => Clean
    case Partway(n) => Hanging(n)
    case Synced(j) => HeaderFate(bs[j..])
  }

  /** The same for bytes that begin with a header. */
  function HeaderFate(h: seq<byte>): Fate
    decreases |h|
  {
    var e := HeaderEnd(h);
    if e > |h| then Stuck
    else if !ForUs(MacOf(h[..6])) then FateOf(h[e..])
    else if e == |h| then Stuck
    else Delivers(ArrivalOf(U16Of(h[e - 2], h[e - 1]), MacOf(h[..6]), MacOf(h[6..12]), h[e..]))
  }

  /** The report of a payload. */
  function ArrivalOf(ethertype: u16, dst: mac, src: mac, p: seq<byte>): Arrival {
    Arrival(Delivery(ethertype, dst, src, |Pack(p)|), Pack(p)[..Staged(|Pack(p)|)])
  }

  /** A report the 10-bit word counter can make. */
  predicate Countable(f: Fate) { f.Delivers? ==> f.report.info.nwords <= 1023 }

  /** A channel that counts n bytes of a preamble. */
  predicate Hung(ch: Channel, n: byte) { Live(ch) && ch.fifo == [] && ch.rx == Counting(ch.rx, n) }

  predicate Meets(e: Channel, reports: seq<Arrival>, f: Fate) {
    match f
    case Clean => reports == [] && Ready(e)
    case Hanging(n) => reports == [] && Hung(e, n)
    case Stuck => reports == [] && (InHeader(e.rx) || e.rx.st == Payload)
    case Delivers(a) => reports == [a] && Ready(e)
  }

  /** A fate in terms of registers: where the payload begins, or what is left of them. */
  predicate Spells(u: Rx, bs: seq<byte>, j: nat, f: Fate) {
    if f.Delivers? then
      && j < |bs| && (j > 0 ==> Walk(u, bs[..j - 1]).st != Payload)
      && Opens(Walk(u, bs[..j]), bs[j..], f.report)
    else
      && (bs != [] ==> Walk(u, bs[..|bs| - 1]).st != Payload)
      && Leaves(Walk(u, bs), f)
  }

  /** Registers at the beginning of a payload. */
  predicate Opens(h: Rx, p: seq<byte>, a: Arrival) {
    && h.st == Payload && h.wrWord == 0 && h.wrByte == 0 && h.nwords == 0
    && a == ArrivalOf(h.ethertype, h.dst, h.src, p)
  }

  predicate Leaves(u: Rx, f: Fate)
    requires !f.Delivers?
  {
    match f
    case Clean => u.st == Idle
    case Hanging(n) => u == Counting(u, n)
    case Stuck => InHeader(u) || u.st == Payload
  }

  lemma BeatsTail(bs: seq<byte>, k: nat)
    requires k <= |bs|
    ensures |T.Beats(bs)[..k]| == k && forall i :: 0 <= i < k ==> T.Beats(bs)[..k][i].data == bs[i]
    ensures T.Beats(bs)[k..] == T.Beats(bs[k..])
    ensures T.Beats(bs)[..k] + T.Beats(bs)[k..] == T.Beats(bs)
  {
  }

  /** Bytes that leave the parser outside a payload only move its registers. */
  lemma FeedOutside(ch: Channel, bs: seq<byte>, k: nat)
    requires Live(ch) && k <= |bs| && (k > 0 ==> Walk(ch.rx, bs[..k - 1]).st != Payload)
    ensures Live(ch.(rx := Walk(ch.rx, bs[..k])))
    ensures Feed(ch, T.Beats(bs)[..k]) == (ch.(rx := Walk(ch.rx, bs[..k])), [])
  {
    hide Walk, Live;
    BeatsTail(bs, k);
    if k > 0 {
      assert bs[..k][..k - 1] == bs[..k - 1];
    }
    FeedWalk(ch, T.Beats(bs)[..k], bs[..k]);
  }

  lemma FeedSplit(ch: Channel, bs: seq<byte>, k: nat)
    requires Live(ch) && k <= |bs| && (k > 0 ==> Walk(ch.rx, bs[..k - 1]).st != Payload)
    ensures var c := ch.(rx := Walk(ch.rx, bs[..k]));
      Live(c) && Feed(ch, T.Beats(bs)) == Feed(c, T.Beats(bs[k..]))
    ensures k == |bs| ==> Feed(ch, T.Beats(bs)) == (ch.(rx := Walk(ch.rx, bs)), [])
  {
    hide Walk, Live;
    FeedOutside(ch, bs, k);
    BeatsTail(bs, k);
    FeedAppend(ch, T.Beats(bs)[..k], T.Beats(bs)[k..]);
    var c := ch.(rx := Walk(ch.rx, bs[..k]));
    var r := Feed(c, T.Beats(bs)[k..]).1;
    assert [] + r == r;
    if k == |bs| {
      assert bs[..k] == bs && T.Beats(bs)[k..] == [];
    }
  }

  /** Ending outside a payload, the parser was never in one. */
  lemma NeverPayload(s: Rx, bs: seq<byte>)
    requires Walk(s, bs).st != Payload
    ensures bs != [] ==> Walk(s, bs[..|bs| - 1]).st != Payload
  {
    if bs != [] {
      var a := bs[..|bs| - 1];
      assert bs == a + [bs[|bs| - 1]];
      WalkAppend(s, a, [bs[|bs| - 1]]);
    }
  }

  /** What follows a prefix over which no payload began. */
  lemma SpellsBehind(u: Rx, a: seq<byte>, b: seq<byte>, j: nat, f: Fate)
    requires Spells(Walk(u, a), b, j, f) && (a != [] ==> Walk(u, a[..|a| - 1]).st != Payload)
    ensures Spells(u, a + b, |a| + j, f)
  {
    hide Walk, Opens, Leaves;
    var bs := a + b;
    WalkAppend(u, a, b);
    if f.Delivers? {
      assert bs[..|a| + j] == a + b[..j] && bs[|a| + j..] == b[j..];
      WalkAppend(u, a, b[..j]);
      if j > 0 {
        assert bs[..|a| + j - 1] == a + b[..j - 1];
        WalkAppend(u, a, b[..j - 1]);
      } else if a != [] {
        assert bs[..|a| - 1] == a[..|a| - 1];
      }
    } else if b != [] {
      assert bs[..|bs| - 1] == a + b[..|b| - 1];
      WalkAppend(u, a, b[..|b| - 1]);
    } else {
      assert bs == a;
    }
  }

  /** Bytes given to an idle parser meet the fate they spell. */
  lemma {:induction false} Spelled(s: Rx, bs: seq<byte>) returns (j: nat)
    requires s.st == Idle
    ensures Spells(s, bs, j, FateOf(bs))
    decreases |bs|, 1
  {
    hide Walk, Search, HeaderFate, Opens, Spells;
    HuntWalk(s, bs);
    var h := Search(bs);
    if h.Synced? {
      var a := bs[..h.at];
      NeverPayload(s, a);
      j := HeaderSpelled(s, bs[h.at..]);
      SpellsBehind(s, a, bs[h.at..], j, HeaderFate(bs[h.at..]));
      assert bs == a + bs[h.at..];
      j := h.at + j;
    } else {
      j := 0;
      NeverPayload(s, bs);
      SpellsHunted(s, bs);
    }
  }

  lemma SpellsHunted(s: Rx, bs: seq<byte>)
    requires Hunted(s, bs, Search(bs)) && !Search(bs).Synced?
    requires bs != [] ==> Walk(s, bs[..|bs| - 1]).st != Payload
    ensures Spells(s, bs, 0, FateOf(bs))
  {
    hide Walk, Search;
  }

  /** So does a parser at the beginning of a header. */
  lemma {:induction false} HeaderSpelled(s: Rx, h: seq<byte>) returns (j: nat)
    ensures Spells(Base(s).(st := Header), h, j, HeaderFate(h))
    decreases |h|, 0
  {
    hide Walk, Base, FateOf, HeaderEnd, HeadedBy, MacOf, Spells;
    var u := Base(s).(st := Header);
    WalkHeader(s, h);
    var e := HeaderEnd(h);
    j := 0;
    if e > |h| {
      NeverPayload(u, h);
      SpellsStuck(u, h);
    } else {
      HeadedSt(s, h);
      assert h[..e][..e - 1] == h[..e - 1] && h == h[..e] + h[e..];
      if !ForUs(MacOf(h[..6])) {
        j := Spelled(HeadedBy(s, h), h[e..]);
      } else if e == |h| {
        EmptyWalk(HeadedBy(s, h));
        SpellsStuck(HeadedBy(s, h), h[e..]);
      } else {
        SpellsPayload(s, h);
      }
      SpellsBehind(u, h[..e], h[e..], j, HeaderFate(h));
      j := e + j;
    }
  }

  lemma SpellsStuck(u: Rx, bs: seq<byte>)
    requires bs != [] ==> Walk(u, bs[..|bs| - 1]).st != Payload
    requires InHeader(Walk(u, bs)) || Walk(u, bs).st == Payload
    ensures Spells(u, bs, 0, Stuck)
  {
    hide Walk;
  }

  lemma SpellsPayload(s: Rx, h: seq<byte>)
    requires HeaderEnd(h) < |h| && ForUs(MacOf(h[..6]))
    ensures Spells(HeadedBy(s, h), h[HeaderEnd(h)..], 0, HeaderFate(h))
  {
    hide HeaderEnd, MacOf, Pack;
    var p := h[HeaderEnd(h)..];
    assert p[0..] == p && p[..0] == [];
  }

  lemma HeadedSt(s: Rx, h: seq<byte>)
    requires HeaderEnd(h) <= |h|
    ensures HeadedBy(s, h).st == if ForUs(MacOf(h[..6])) then Payload else Idle
  {
    hide HeaderEnd, MacOf;
  }

  /** Bytes that spell a fate, the last one flagged, bring it about. */
  lemma FedBy(c: Channel, w: seq<byte>, j: nat, f: Fate)
    requires Live(c) && c.fifo == [] && w != [] && Spells(c.rx, w, j, f) && Countable(f)
    ensures Meets(Feed(c, T.Beats(w)).0, Feed(c, T.Beats(w)).1, f)
    ensures !f.Delivers? ==> Feed(c, T.Beats(w)) == (c.(rx := Walk(c.rx, w)), []) && Live(c.(rx := Walk(c.rx, w)))
  {
    hide Walk, Feed, Pack;
    if f.Delivers? {
      hide Live, Ready;
      FeedSplit(c, w, j);
      var d, p := c.(rx := Walk(c.rx, w[..j])), w[j..];
      PayloadFed(d, p, f.report);
    } else {
      assert w[..|w|] == w;
      FeedSplit(c, w, |w|);
    }
  }

  lemma PayloadFed(d: Channel, p: seq<byte>, a: Arrival)
    requires Live(d) && d.fifo == [] && p != [] && Opens(d.rx, p, a) && a.info.nwords <= 1023
    ensures Feed(d, T.Beats(p)).1 == [a] && Ready(Feed(d, T.Beats(p)).0)
  {
    hide Feed, Pack;
    assert |p| <= 4092;
    assert d == Inside(d, d.rx, p, 0) by {
      assert Pack(p)[..0] == [];
    }
    FeedRest(d, d.rx, p, 0);
    assert T.Beats(p)[0..] == T.Beats(p);
  }

  // ---------------------------------------------------------------- any line at all

  /** Frames as byte strings, each with its last byte flagged. */
  function LineOf(ws: seq<seq<byte>>): seq<Beat> {
    if ws == [] then [] else T.Beats(ws[0]) + LineOf(ws[1..])
  }

  /** The bytes since the last report once w has been received too. */
  function Open(open: seq<byte>, w: seq<byte>): seq<byte> {
    if FateOf(open + w).Delivers? then [] else open + w
  }

  function OpenAfter(open: seq<byte>, ws: seq<seq<byte>>): seq<byte>
    decreases |ws|
  {
    if ws == [] then open else OpenAfter(Open(open, ws[0]), ws[1..])
  }

  /** What a line is reported as: flags count only inside a payload, so everything since the last report is read as one
      string, and the first frame for the board in it is reported when the frame around its end ends. */
  function Reports(open: seq<byte>, ws: seq<seq<byte>>): seq<Arrival>
    decreases |ws|
  {
    if ws == [] then []
    else
      var f := FateOf(open + ws[0]);
      (if f.Delivers? then [f.report] else []) + Reports(Open(open, ws[0]), ws[1..])
  }

  /** The channel has read `open` since it was last idle. */
  ghost predicate Reading(ch: Channel, s: Rx, open: seq<byte>) {
    s.st == Idle && Live(ch) && ch.fifo == [] && ch.rx == Walk(s, open) && !FateOf(open).Delivers?
  }

  /** What was read before does not matter but for the bytes since the last report. */
  lemma SpellsAhead(s: Rx, open: seq<byte>, w: seq<byte>, i: nat, j: nat, f: Fate)
    requires w != [] && Spells(s, open + w, j, f)
    requires !FateOf(open).Delivers? && Spells(s, open, i, FateOf(open))
    ensures f.Delivers? ==> j >= |open|
    ensures Spells(Walk(s, open), w, if j < |open| then 0 else j - |open|, f)
  {
    hide Walk, FateOf, Spells;
    if f.Delivers? {
      OpensLate(s, open, w, i, j, f);
      OpensAhead(s, open, w, j - |open|, f);
    } else {
      LeavesAhead(s, open, w, j, if j < |open| then 0 else j - |open|, f);
    }
  }

  lemma LeavesAhead(s: Rx, open: seq<byte>, w: seq<byte>, j: nat, k: nat, f: Fate)
    requires w != [] && !f.Delivers? && Spells(s, open + w, j, f)
    ensures Spells(Walk(s, open), w, k, f)
  {
    hide Walk, Leaves, Opens;
    ButLast(open, w);
    WalkAppend(s, open, w);
    WalkAppend(s, open, w[..|w| - 1]);
  }

  lemma ButLast(a: seq<byte>, b: seq<byte>)
    requires b != []
    ensures a + b != [] && (a + b)[..|a + b| - 1] == a + b[..|b| - 1]
  {
  }

  lemma OpensAhead(s: Rx, open: seq<byte>, w: seq<byte>, k: nat, f: Fate)
    requires f.Delivers? && Spells(s, open + w, |open| + k, f)
    ensures Spells(Walk(s, open), w, k, f)
  {
    hide Walk, Opens, FateOf, Leaves;
    var bs := open + w;
    assert bs[..|open| + k] == open + w[..k] && bs[|open| + k..] == w[k..];
    WalkAppend(s, open, w[..k]);
    if k > 0 {
      assert bs[..|open| + k - 1] == open + w[..k - 1];
      WalkAppend(s, open, w[..k - 1]);
    }
  }

  /** A payload does not begin among bytes that deliver nothing. */
  lemma OpensLate(s: Rx, open: seq<byte>, w: seq<byte>, i: nat, j: nat, f: Fate)
    requires w != [] && f.Delivers? && Spells(s, open + w, j, f)
    requires !FateOf(open).Delivers? && Spells(s, open, i, FateOf(open))
    ensures j >= |open|
  {
    hide Walk, FateOf, Leaves, Opens;
    if j < |open| {
      assert (open + w)[..j] == open[..j];
      OpensPayload(Walk(s, open[..j]), (open + w)[j..], f.report);
      PayloadRemains(s, open, j);
    }
  }

  lemma PayloadRemains(s: Rx, bs: seq<byte>, j: nat)
    requires j < |bs| && Walk(s, bs[..j]).st == Payload
    ensures Walk(s, bs[..|bs| - 1]).st == Payload
  {
    hide Walk;
    var k := |bs| - 1;
    assert bs[..k] == bs[..j] + bs[j..k];
    WalkAppend(s, bs[..j], bs[j..k]);
    WalkPayload(Walk(s, bs[..j]), bs[j..k]);
  }

  lemma OpensPayload(h: Rx, p: seq<byte>, a: Arrival)
    requires Opens(h, p, a)
    ensures h.st == Payload
  {
  }

  lemma ChunkFed(ch: Channel, s: Rx, open: seq<byte>, w: seq<byte>)
    requires Reading(ch, s, open) && w != [] && Countable(FateOf(open + w))
    ensures var f, e := FateOf(open + w), Feed(ch, T.Beats(w)).0;
      && Feed(ch, T.Beats(w)).1 == (if f.Delivers? then [f.report] else [])
      && if f.Delivers? then Reading(e, e.rx, []) else Reading(e, s, open + w)
  {
    hide Walk, Feed, FateOf, Spells, Live;
    var f := FateOf(open + w);
    var i := Spelled(s, open);
    var j := Spelled(s, open + w);
    SpellsAhead(s, open, w, i, j, f);
    FedBy(ch, w, if j < |open| then 0 else j - |open|, f);
    if f.Delivers? {
      NothingRead(Feed(ch, T.Beats(w)).0);
    } else {
      WalkAppend(s, open, w);
    }
  }

  lemma NothingRead(e: Channel)
    requires Ready(e)
    ensures Reading(e, e.rx, [])
  {
  }

  lemma {:induction false} LineFed(ch: Channel, s: Rx, open: seq<byte>, ws: seq<seq<byte>>) returns (r: Rx)
    requires Reading(ch, s, open) && forall i :: 0 <= i < |ws| ==> ws[i] != []
    requires forall a :: a in Reports(open, ws) ==> a.info.nwords <= 1023
    ensures Feed(ch, LineOf(ws)).1 == Reports(open, ws)
    ensures Reading(Feed(ch, LineOf(ws)).0, r, OpenAfter(open, ws))
    decreases |ws|
  {
    hide Walk, FateOf, Live, Pass, T.Beats;
    r := s;
    if ws != [] {
      var w, f := ws[0], FateOf(open + ws[0]);
      assert f.Delivers? ==> f.report in Reports(open, ws);
      ChunkFed(ch, s, open, w);
      var c := Feed(ch, T.Beats(w)).0;
      FeedAppend(ch, T.Beats(w), LineOf(ws[1..]));
      r := LineFed(c, if f.Delivers? then c.rx else s, Open(open, w), ws[1..]);
    }
  }

  /** Whatever byte strings arrive, at any pace, each flagged on its last byte: the reports are those the strings spell,
      and the channel is ready exactly when what came since the last report is clean. */
  lemma LineReported(ch: Channel, ws: seq<seq<byte>>, inputs: seq<Option<Beat>>)
    requires Ready(ch) && Present(inputs) == LineOf(ws) && forall i :: 0 <= i < |ws| ==> ws[i] != []
    requires forall a :: a in Reports([], ws) ==> a.info.nwords <= 1023
    ensures Passes(ch, inputs).1 == Reports([], ws)
    ensures Ready(Passes(ch, inputs).0) <==> FateOf(OpenAfter([], ws)) == Clean
  {
    hide Walk, FateOf, Live, Pass, Spells;
    PassesAreFeed(ch, inputs);
    NothingRead(ch);
    var r := LineFed(ch, ch.rx, [], ws);
    var j := Spelled(r, OpenAfter([], ws));
    SpellsState(r, OpenAfter([], ws), j);
  }

  lemma SpellsState(r: Rx, bs: seq<byte>, j: nat)
    requires Spells(r, bs, j, FateOf(bs)) && !FateOf(bs).Delivers?
    ensures Walk(r, bs).st == Idle <==> FateOf(bs) == Clean
  {
    hide Walk, FateOf;
  }

  // ---------------------------------------------------------------- frames for other stations

  /** A frame for another station, exactly: it leaves no trace if and only if its rest is clean; it delivers something
      if and only if its rest contains a frame for the board that ends with it, and then exactly that; and the channel
      is ready for the next frame in these two cases only. */
  lemma ForeignFrame(ch: Channel, f: Frame)
    requires Ready(ch) && WellFormed(f) && !ForUs(f.dst)
    ensures var (e, reports) := Feed(ch, T.Beats(WireBytes(f)));
      && Meets(e, reports, FateOf(f.rest))
      && (Ready(e) && reports == [] <==> FateOf(f.rest) == Clean)
      && (reports != [] <==> FateOf(f.rest).Delivers?)
      && (Ready(e) <==> FateOf(f.rest) == Clean || FateOf(f.rest).Delivers?)
  {
    hide FateOf, HeadBytes, Feed;
    HeadPasses(ch, f);
    var c := ch.(rx := Headed(ch.rx, f));
    BeatsSplit(HeadBytes(f), f.rest);
    var b := T.Beats(WireBytes(f))[..|HeadBytes(f)|];
    FeedAppend(ch, b, T.Beats(f.rest));
    var j := Spelled(c.rx, f.rest);
    FedBy(c, f.rest, j, FateOf(f.rest));
    var r := Feed(c, T.Beats(f.rest)).1;
    assert [] + r == r;
  }

  /** Clean is what never has six marks in a row and does not end in one. */
  lemma NoSixIsClean(bs: seq<byte>)
    requires forall s :: 0 <= s < |bs| ==> !SixAt(bs, s)
    ensures Trail(bs) < 6 && FateOf(bs) == if Trail(bs) == 0 then Clean else Hanging(Trail(bs))
  {
    TrailShort(bs);
  }

  /** The failure: a frame for another station whose rest ends in a preamble and a delimiter leaves the parser in a
      header, and the next frame is read from there: its own bytes are taken for a header, and what they spell
      decides. */
  lemma NextFrameMisread(ch: Channel, f: Frame, g: Frame)
    requires Ready(ch) && WellFormed(f) && !ForUs(f.dst) && Search(f.rest) == Synced(|f.rest|)
    requires Countable(HeaderFate(WireBytes(g))) && WireBytes(g) != []
    ensures var (e, reports) := Feed(ch, T.Beats(WireBytes(f)) + T.Beats(WireBytes(g)));
      Meets(e, reports, HeaderFate(WireBytes(g)))
  {
    hide WireBytes, Feed, HeaderFate, HeadBytes, Search, Base;
    var x, y := T.Beats(WireBytes(f)), T.Beats(WireBytes(g));
    EndsInHeader(ch, f);
    FeedAppend(ch, x, y);
    var c := Feed(ch, x).0;
    var j := HeaderSpelled(c.rx, WireBytes(g));
    FedBy(c, WireBytes(g), j, HeaderFate(WireBytes(g)));
    var r := Feed(c, y).1;
    assert [] + r == r;
  }

  lemma EndsInHeader(ch: Channel, f: Frame)
    requires Ready(ch) && WellFormed(f) && !ForUs(f.dst) && Search(f.rest) == Synced(|f.rest|)
    ensures var (c, reports) := Feed(ch, T.Beats(WireBytes(f)));
      reports == [] && Live(c) && c.fifo == [] && c.rx == Base(c.rx).(st := Header)
  {
    hide Search, HeadBytes, Feed, Walk, Live;
    HeadPasses(ch, f);
    var c := ch.(rx := Headed(ch.rx, f));
    BeatsSplit(HeadBytes(f), f.rest);
    var b := T.Beats(WireBytes(f))[..|HeadBytes(f)|];
    FeedAppend(ch, b, T.Beats(f.rest));
    HuntWalk(c.rx, f.rest);
    assert f.rest[..|f.rest|] == f.rest;
    NeverPayload(c.rx, f.rest);
    FeedSplit(c, f.rest, |f.rest|);
  }

  const PREAMBLE_ONLY: seq<byte> := [MARK, MARK, MARK, MARK, MARK, MARK, MARK, DELIMITER]

  /** Concretely: after a frame for another station that ends in 55 55 55 55 55 55 55 D5, a frame for the board with the
      usual preamble is lost if its source, tags, ethertype and rest have no six marks in a row. */
  lemma NextFrameLost(ch: Channel, f: Frame, g: Frame)
    requires Ready(ch) && WellFormed(f) && !ForUs(f.dst) && f.rest == PREAMBLE_ONLY
    requires WellFormed(g) && ForUs(g.dst) && g.lead == 7
    requires forall s :: 14 <= s < |WireBytes(g)| ==> !SixAt(WireBytes(g), s)
    ensures Feed(ch, T.Beats(WireBytes(f)) + T.Beats(WireBytes(g))).1 == []
  {
    hide Feed, FateOf, Lock, Search, Trail;
    SearchPreamble();
    var w := WireBytes(g);
    MisreadHeader(g);
    var t := w[14..];
    forall s | 0 <= s < |t| && SixAt(t, s) ensures SixAt(w, 14 + s) {
    }
    assert forall s :: 0 <= s < |t| ==> !SixAt(t, s);
    NoSixIsClean(t);
    NextFrameMisread(ch, f, g);
  }

  lemma SearchPreamble()
    ensures Search(PREAMBLE_ONLY) == Synced(|PREAMBLE_ONLY|)
  {
    assert SixAt(PREAMBLE_ONLY, 0);
    assert Lock(PREAMBLE_ONLY, 0) == 0;
    assert Delimiter(PREAMBLE_ONLY, 7) == 7;
  }

  /** The preamble and destination of the next frame read as a header for nobody here. */
  lemma MisreadHeader(g: Frame)
    requires WellFormed(g) && ForUs(g.dst) && g.lead == 7
    ensures |WireBytes(g)| >= 14 && HeaderFate(WireBytes(g)) == FateOf(WireBytes(g)[14..])
  {
    hide FateOf, TagBytes, Lead;
    LeadSeven();
    var w := WireBytes(g);
    var rest := T.MacBytes(g.src) + TagBytes(g.tags) + [Hi(g.ethertype)] + [Lo(g.ethertype)] + g.rest;
    assert w == T.PREAMBLE + (T.MacBytes(g.dst) + rest);
    assert w[..6] == [MARK, MARK, MARK, MARK, MARK, MARK];
    assert w[12] == T.MacByte(g.dst, 4) && w[13] == T.MacByte(g.dst, 5);
    assert HeaderEnd(w) == 14;
    assert !ForUs(MacOf(w[..6]));
  }

  /** In particular the bytes of a frame for the board deliver it wherever an idle parser finds them: the end-of-frame
      flag of the frame around it is not looked at before. */
  lemma EmbeddedFrameDelivered(ch: Channel, f: Frame, g: Frame)
    requires Ready(ch) && WellFormed(f) && !ForUs(f.dst) && WellFormed(g) && ForUs(g.dst) && f.rest == WireBytes(g)
    ensures FateOf(f.rest) == Delivers(Report(g))
    ensures Feed(ch, T.Beats(WireBytes(f))).1 == [Report(g)]
  {
    hide FateOf, WireBytes, Feed, Report, Headed;
    FrameDelivered(ch, g);
    var j := Spelled(ch.rx, f.rest);
    FedBy(ch, f.rest, j, FateOf(f.rest));
    ForeignFrame(ch, f);
  }

  // ---------------------------------------------------------------- mixed lines

  /** How many bytes of a preamble a frame leaves counted. */
  function Tail(f: Frame): byte {
    if ForUs(f.dst) || !FateOf(f.rest).Hanging? then 0 else FateOf(f.rest).count
  }

  /** Frames that leave the channel between frames: ready, or counting the bytes of a preamble. */
  predicate Tolerable(f: Frame) { WellFormed(f) && (ForUs(f.dst) || !FateOf(f.rest).Stuck?) }

  /** What the frame before leaves counted and its own lead stay below the wrap of the counter. */
  predicate Spaced(fs: seq<Frame>) {
    forall i :: 0 < i < |fs| ==> Tail(fs[i - 1]) + fs[i].lead <= 254
  }

  /** What a frame is reported as. */
  function Reported(f: Frame): seq<Arrival> {
    if ForUs(f.dst) then [Report(f)] else if FateOf(f.rest).Delivers? then [FateOf(f.rest).report] else []
  }

  function AllReported(fs: seq<Frame>): seq<Arrival> {
    if fs == [] then [] else Reported(fs[0]) + AllReported(fs[1..])
  }

  /** A channel between frames. */
  predicate Between(ch: Channel, n: byte) { if n == 0 then Ready(ch) || Hung(ch, 0) else Hung(ch, n) }

  lemma {:induction false} LeadJoin(n: nat, m: nat)
    ensures Lead(n) + Lead(m) == Lead(n + m)
    decreases m
  {
    if m > 0 {
      LeadJoin(n, m - 1);
      assert Lead(n) + Lead(m) == (Lead(n) + Lead(m - 1)) + [0x55];
    } else {
      assert Lead(n) + [] == Lead(n);
    }
  }

  /** A channel that counts n bytes of a preamble is one that has just seen n marks. */
  lemma HungAlike(ch: Channel, n: byte, f: Frame)
    requires Hung(ch, n) && WellFormed(f) && n + f.lead <= 254
    ensures var c, g := ch.(rx := Base(ch.rx)), f.(lead := n + f.lead);
      Ready(c) && WellFormed(g) && Feed(ch, T.Beats(WireBytes(f))) == Feed(c, T.Beats(WireBytes(g)))
  {
    hide Walk, Feed, Quiet, WireBytes;
    LongerLead(f, n);
    if n > 0 {
      HungMarks(ch, n, WireBytes(f));
    } else {
      HungNone(ch, WireBytes(f));
    }
  }

  /** What follows the lead of a frame. */
  function BehindLead(f: Frame): seq<byte> {
    [DELIMITER] + T.MacBytes(f.dst) + T.MacBytes(f.src) + TagBytes(f.tags) + [Hi(f.ethertype)] + [Lo(f.ethertype)]
    + f.rest
  }

  lemma LeadFirst(f: Frame)
    ensures WireBytes(f) == Lead(f.lead) + BehindLead(f)
  {
    hide T.MacBytes, TagBytes, Lead, Hi, Lo;
    var l, a, b, c := Lead(f.lead), [DELIMITER] + T.MacBytes(f.dst), T.MacBytes(f.src), TagBytes(f.tags);
    assert l + [0xD5] + T.MacBytes(f.dst) == l + a;
    assert l + a + b + c == l + (a + b + c);
  }

  lemma LongerLead(f: Frame, n: nat)
    requires f.lead >= 1
    ensures WireBytes(f.(lead := n + f.lead)) == Lead(n) + WireBytes(f)
    ensures WireBytes(f) != [] && WireBytes(f)[..1] == [MARK]
  {
    hide WireBytes, BehindLead;
    var g := f.(lead := n + f.lead);
    LeadFirst(f);
    LeadFirst(g);
    SameBehind(f, g);
    LeadJoin(n, f.lead);
    LeadJoin(1, f.lead - 1);
    assert Lead(1) == [MARK];
  }

  lemma SameBehind(f: Frame, g: Frame)
    requires g == f.(lead := g.lead)
    ensures BehindLead(f) == BehindLead(g)
  {
  }

  lemma HungMarks(ch: Channel, n: byte, w: seq<byte>)
    requires Hung(ch, n) && 0 < n <= 254
    ensures var c := ch.(rx := Base(ch.rx));
      Live(c) && Feed(ch, T.Beats(w)) == Feed(c, T.Beats(Lead(n) + w))
  {
    hide Walk, Feed, Quiet, Lead;
    var c := ch.(rx := Base(ch.rx));
    var v := Lead(n) + w;
    assert v[..n] == Lead(n) && v[n..] == w;
    LeadCounts(c.rx, ch.rx, n);
    NeverPayload(c.rx, v[..n]);
    assert v[..n][..n - 1] == v[..n - 1];
    FeedSplit(c, v, n);
  }

  lemma HungNone(ch: Channel, w: seq<byte>)
    requires Hung(ch, 0) && w != [] && w[..1] == [MARK]
    ensures var c := ch.(rx := Base(ch.rx));
      Live(c) && Feed(ch, T.Beats(w)) == Feed(c, T.Beats(Lead(0) + w))
  {
    hide Walk, Feed, Quiet;
    var c := ch.(rx := Base(ch.rx));
    assert Lead(0) + w == w;
    WrappedAlike(ch.rx, w[..1]);
    assert w[..0] == [];
    EmptyWalk(ch.rx);
    EmptyWalk(c.rx);
    FeedSplit(ch, w, 1);
    FeedSplit(c, w, 1);
  }

  lemma FrameReported(ch: Channel, f: Frame)
    requires Ready(ch) && Tolerable(f)
    ensures Between(Feed(ch, T.Beats(WireBytes(f))).0, Tail(f)) && Feed(ch, T.Beats(WireBytes(f))).1 == Reported(f)
  {
    hide FateOf, WireBytes, Feed, Headed;
    if ForUs(f.dst) {
      FrameDelivered(ch, f);
    } else {
      ForeignFrame(ch, f);
    }
  }

  lemma FrameBetween(ch: Channel, n: byte, f: Frame)
    requires Between(ch, n) && Tolerable(f) && n + f.lead <= 254
    ensures Between(Feed(ch, T.Beats(WireBytes(f))).0, Tail(f)) && Feed(ch, T.Beats(WireBytes(f))).1 == Reported(f)
  {
    hide Feed, WireBytes, FateOf;
    if Ready(ch) {
      FrameReported(ch, f);
    } else {
      HungAlike(ch, n, f);
      FrameReported(ch.(rx := Base(ch.rx)), f.(lead := n + f.lead));
    }
  }

  lemma BetweenLive(ch: Channel, n: byte)
    requires Between(ch, n)
    ensures Live(ch)
  {
  }

  lemma NothingFed(ch: Channel)
    requires Live(ch)
    ensures Feed(ch, []) == (ch, []) && WireAll([]) == []
  {
  }

  lemma {:induction false} FeedMixed(ch: Channel, n: byte, fs: seq<Frame>)
    requires Between(ch, n) && forall i :: 0 <= i < |fs| ==> Tolerable(fs[i])
    requires Spaced(fs) && (fs != [] ==> n + fs[0].lead <= 254)
    ensures Feed(ch, WireAll(fs)).1 == AllReported(fs)
    ensures Between(Feed(ch, WireAll(fs)).0, if fs == [] then n else Tail(fs[|fs| - 1]))
    decreases |fs|
  {
    hide WireBytes, Tolerable, Reported, Feed, Tail, Between, T.Beats;
    BetweenLive(ch, n);
    if fs == [] {
      NothingFed(ch);
    } else {
      FrameBetween(ch, n, fs[0]);
      var c := Feed(ch, T.Beats(WireBytes(fs[0]))).0;
      FeedAppend(ch, T.Beats(WireBytes(fs[0])), WireAll(fs[1..]));
      FeedMixed(c, Tail(fs[0]), fs[1..]);
    }
  }

  /** Over any sequence of tolerable frames, for the board and for others, arriving at any pace: the frames for the
      board and those embedded in others' are reported, one report each and in order, and nothing else. */
  lemma FramesDelivered(ch: Channel, fs: seq<Frame>, inputs: seq<Option<Beat>>)
    requires Ready(ch) && Present(inputs) == WireAll(fs)
    requires Spaced(fs) && forall i :: 0 <= i < |fs| ==> Tolerable(fs[i])
    ensures Passes(ch, inputs).1 == AllReported(fs)
    ensures Between(Passes(ch, inputs).0, if fs == [] then 0 else Tail(fs[|fs| - 1]))
  {
    hide Feed, Passes, Tail, Tolerable;
    PassesAreFeed(ch, inputs);
    if fs != [] {
      assert Tolerable(fs[0]) && fs[0].lead <= 254 by {
        LeadFits(fs[0]);
      }
    }
    FeedMixed(ch, 0, fs);
  }

  lemma LeadFits(f: Frame)
    requires Tolerable(f)
    ensures f.lead <= 254
  {
  }
}
