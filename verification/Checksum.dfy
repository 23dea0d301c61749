/** The ones' complement checksum of RFC 1071 as the stack computes it (eth_utils.h, layer_icmp.cpp, layer_tcp.cpp):
    a 32-bit accumulator, folded until the carry is gone, then complemented. */
module Checksum {
  import opened Bytes

  /** The carry-folding loop. */
  function Fold(s: nat): u16
    decreases s
  {
    if s < 0x1_0000 then s else Fold(s % 0x1_0000 + s / 0x1_0000)
  }

  /** The value inserted for an accumulated sum, or computed when verifying one. */
  function Check(s: nat): u16 { 0xFFFF - Fold(s) }

  method FoldCarry(sum: word) returns (r: u16)
    ensures r == Fold(sum)
  {
    var s: word := sum;
    while s / 0x1_0000 != 0
      invariant Fold(s) == Fold(sum)
      decreases s
    {
      s := s % 0x1_0000 + s / 0x1_0000;
    }
    r := s;
  }

  function Sum(words: seq<u16>): nat {
    if words == [] then 0 else words[0] + Sum(words[1..])
  }

  /** eth_utils.h: ones_complement_checksum. The accumulator is 32 bits wide. */
  method OnesComplementChecksum(words: seq<u16>) returns (r: u16)
    ensures r == Check(Sum(words) % WRAP)
  {
    var sum: word := 0;
    ghost var exact: nat := 0;
    for i := 0 to |words|
      invariant exact + Sum(words[i..]) == Sum(words)
      invariant sum == exact % WRAP
    {
      assert words[i..][1..] == words[i + 1..];
      sum := (sum + words[i]) % WRAP;
      exact := exact + words[i];
    }
    var f := FoldCarry(sum);
    r := 0xFFFF - f;
  }

  lemma NoWrap(words: seq<u16>)
    requires |words| <= 0x1_0001
    ensures Sum(words) % WRAP == Sum(words)
  {
    SumBound(words);
  }

  /** Bytes taken pairwise, high byte first; an odd last byte counts as a high byte. */
  function Sum16(s: seq<byte>): nat {
    if s == [] then 0
    else if |s| == 1 then U16Of(s[0], 0)
    else U16Of(s[0], s[1]) + Sum16(s[2..])
  }

  lemma {:induction false} Sum16Bound(s: seq<byte>)
    ensures Sum16(s) <= 0xFFFF * ((|s| + 1) / 2)
    decreases |s|
  {
    if |s| >= 2 {
      Sum16Bound(s[2..]);
    }
  }

  lemma {:induction false} SumBound(words: seq<u16>)
    ensures Sum(words) <= 0xFFFF * |words|
  {
    if words != [] {
      SumBound(words[1..]);
    }
  }

  /** The summing loop shared by icmp_checksum and tcp_csum, on top of an initial sum. */
  method SumBytes(initial: word, d: array<byte>, len: u16) returns (sum: word)
    requires len <= d.Length
    requires initial + 0xFFFF * 0x8000 < WRAP
    ensures sum == initial + Sum16(d[..len])
  {
    sum := initial;
    Sum16Bound(d[..len]);
    var i := 0;
    while i < len - 1
      invariant i % 2 == 0 && 0 <= i <= len
      invariant sum + Sum16(d[i..len]) == initial + Sum16(d[..len])
      invariant len % 2 == 1 ==> i < len
    {
      assert d[i..len][0] == d[i] && d[i..len][1] == d[i + 1] && d[i..len][2..] == d[i + 2..len];
      sum := sum + U16Of(d[i], d[i + 1]);
      i := i + 2;
    }
    if len % 2 == 1 {
      assert d[i..len] == [d[len - 1]];
      sum := sum + U16Of(d[len - 1], 0);
    } else {
      assert d[i..len] == [];
    }
  }

  /** layer_icmp.cpp: icmp_checksum. */
  method IcmpChecksum(d: array<byte>, len: u16) returns (r: u16)
    requires len <= d.Length
    ensures r == Check(Sum16(d[..len]))
  {
    var sum := SumBytes(0, d, len);
    var f := FoldCarry(sum);
    r := 0xFFFF - f;
  }

  /** The sum over the pseudo-header: addresses, protocol 6 and length. */
  function PseudoSum(sip: word, dip: word, len: u16): word {
    6 + len + sip / 0x1_0000 + sip % 0x1_0000 + dip / 0x1_0000 + dip % 0x1_0000
  }

  function TcpSum(sip: word, dip: word, d: seq<byte>): nat
    requires |d| < 0x1_0000
  {
    PseudoSum(sip, dip, |d|) + Sum16(d)
  }

  /** layer_tcp.cpp: tcp_csum. */
  method TcpChecksum(sip: word, dip: word, d: array<byte>, len: u16) returns (r: u16)
    requires len <= d.Length
    ensures r == Check(TcpSum(sip, dip, d[..len]))
  {
    var sum := SumBytes(PseudoSum(sip, dip, len), d, len);
    var f := FoldCarry(sum);
    r := 0xFFFF - f;
  }

  // ---------------------------------------------------------------- what the fold computes

  lemma {:induction false} ModShift(a: nat, q: nat)
    ensures (a + 0xFFFF * q) % 0xFFFF == a % 0xFFFF
  {
    if q > 0 {
      ModShift(a, q - 1);
      assert a + 0xFFFF * q == (a + 0xFFFF * (q - 1)) + 0xFFFF;
    }
  }

  /** The fold is the remainder modulo 65535, with 65535 standing for 0 unless the sum was 0. */
  lemma {:induction false} FoldValue(s: nat)
    ensures Fold(s) == if s == 0 then 0 else (s - 1) % 0xFFFF + 1
    decreases s
  {
    if s >= 0x1_0000 {
      var q, f := s / 0x1_0000, s % 0x1_0000 + s / 0x1_0000;
      FoldValue(f);
      ModShift(f - 1, q);
      assert s - 1 == (f - 1) + 0xFFFF * q;
    }
  }

  /** Verification succeeds exactly on the non-zero multiples of 65535. */
  lemma CheckIsZero(s: nat)
    ensures Check(s) == 0 <==> s > 0 && s % 0xFFFF == 0
  {
    FoldValue(s);
    if s > 0 {
      var q, r := (s - 1) / 0xFFFF, (s - 1) % 0xFFFF;
      ModShift(r + 1, q);
      assert s == r + 1 + 0xFFFF * q;
    }
  }

  /** Which 16-bit values, put in the zeroed field, make the verification succeed: the computed one, and 0xFFFF
      beside a computed 0. */
  lemma CheckAccepts(s: nat, v: u16)
    ensures Check(s + v) == 0 <==> v == Check(s) || (Check(s) == 0 && v == 0xFFFF)
  {
    FoldValue(s);
    CheckIsZero(s + v);
    if s > 0 {
      var q, r := (s - 1) / 0xFFFF, (s - 1) % 0xFFFF;
      assert s + v == 0xFFFF * q + (r + 1 + v);
      ModShift(r + 1 + v, q);
    }
  }

  // ---------------------------------------------------------------- inserting the field

  lemma {:induction false} SumUpdate(words: seq<u16>, k: nat, v: u16)
    requires k < |words| && words[k] == 0
    ensures Sum(words[k := v]) == Sum(words) + v
  {
    if k > 0 {
      assert words[k := v][1..] == words[1..][k - 1 := v];
      SumUpdate(words[1..], k - 1, v);
    } else {
      assert words[k := v][1..] == words[1..];
    }
  }

  /** Insert then verify: among all values of a zeroed header word exactly the computed checksum (or its alias)
      verifies, for every header whose sum fits the accumulator. */
  lemma InsertThenVerify(words: seq<u16>, k: nat, v: u16)
    requires k < |words| <= 0x1_0001 && words[k] == 0
    ensures Check(Sum(words[k := Check(Sum(words) % WRAP)]) % WRAP) == 0
    ensures Check(Sum(words[k := v]) % WRAP) == 0
       <==> v == Check(Sum(words) % WRAP) || (Check(Sum(words) % WRAP) == 0 && v == 0xFFFF)
  {
    hide Sum, Check;
    NoWrap(words);
    var c := Check(Sum(words));
    NoWrap(words[k := v]);
    NoWrap(words[k := c]);
    SumUpdate(words, k, v);
    SumUpdate(words, k, c);
    CheckAccepts(Sum(words), v);
    CheckAccepts(Sum(words), c);
  }

  /** Writing a 16-bit value over two zero bytes at an even offset adds it to the sum. */
  lemma {:induction false} Sum16Update(s: seq<byte>, k: nat, v: u16)
    requires k % 2 == 0 && k + 1 < |s| && s[k] == 0 && s[k + 1] == 0
    ensures Sum16(s[k := Hi(v)][k + 1 := Lo(v)]) == Sum16(s) + v
    decreases k
  {
    var t := s[k := Hi(v)][k + 1 := Lo(v)];
    if k > 0 {
      assert t[2..] == s[2..][k - 2 := Hi(v)][k - 1 := Lo(v)];
      Sum16Update(s[2..], k - 2, v);
    } else {
      assert t[2..] == s[2..];
    }
  }

  /** The same for bytes, over any base: writing the computed checksum into two zero bytes makes the whole verify. */
  lemma FillVerifies(base: nat, s: seq<byte>, k: nat)
    requires k % 2 == 0 && k + 1 < |s| && s[k] == 0 && s[k + 1] == 0
    ensures var v := Check(base + Sum16(s)); Check(base + Sum16(s[k := Hi(v)][k + 1 := Lo(v)])) == 0
  {
    hide Sum16, Check;
    var v := Check(base + Sum16(s));
    Sum16Update(s, k, v);
    CheckAccepts(base + Sum16(s), v);
  }

  /** The 16-bit words of an even byte string. */
  function Pairs(s: seq<byte>): (ws: seq<u16>)
    requires |s| % 2 == 0
    ensures |ws| == |s| / 2
    ensures forall i :: 0 <= i < |ws| ==> ws[i] == U16Of(s[2 * i], s[2 * i + 1])
  {
    if s == [] then [] else [U16Of(s[0], s[1])] + Pairs(s[2..])
  }

  lemma {:induction false} SumOfPairs(s: seq<byte>)
    requires |s| % 2 == 0
    ensures Sum(Pairs(s)) == Sum16(s)
    decreases |s|
  {
    if s != [] {
      SumOfPairs(s[2..]);
    }
  }

  // ---------------------------------------------------------------- what the sum is

  /** Byte k counts 256 times at an even position, once at an odd one. */
  function Weight(k: nat): nat { if k % 2 == 0 then 0x100 else 1 }

  function Weighted(s: seq<byte>): nat
    decreases |s|
  {
    if s == [] then 0 else Weighted(s[..|s| - 1]) + s[|s| - 1] * Weight(|s| - 1)
  }

  lemma {:induction false} Sum16Snoc(s: seq<byte>)
    requires s != []
    ensures Sum16(s) == Sum16(s[..|s| - 1]) + s[|s| - 1] * Weight(|s| - 1)
    decreases |s|
  {
    if |s| > 2 {
      assert s[2..][..|s| - 3] == s[..|s| - 1][2..];
      Sum16Snoc(s[2..]);
    } else if |s| == 2 {
      assert s[..1] == [s[0]] && s[2..] == [];
    }
  }

  /** The sum of a byte string by its positions, odd lengths included. */
  lemma {:induction false} SumIsWeighted(s: seq<byte>)
    ensures Sum16(s) == Weighted(s)
    decreases |s|
  {
    if s != [] {
      Sum16Snoc(s);
      SumIsWeighted(s[..|s| - 1]);
    }
  }

  /** An odd string sums like the same one padded with a zero byte. */
  lemma SumPadded(s: seq<byte>)
    requires |s| % 2 == 1
    ensures Sum16(s) == Sum16(s + [0]) == Sum(Pairs(s + [0]))
  {
    hide Sum16, Sum, Pairs;
    Sum16Snoc(s + [0]);
    assert (s + [0])[..|s|] == s;
    SumOfPairs(s + [0]);
  }

  lemma {:induction false} Sum16Append(a: seq<byte>, b: seq<byte>)
    requires |a| % 2 == 0
    ensures Sum16(a + b) == Sum16(a) + Sum16(b)
    decreases |b|
  {
    if b == [] {
      assert a + b == a;
    } else {
      var n := |b| - 1;
      assert (a + b)[..|a| + n] == a + b[..n];
      Sum16Snoc(a + b);
      Sum16Snoc(b);
      Sum16Append(a, b[..n]);
    }
  }

  lemma TakeTwo(s: seq<byte>)
    requires |s| >= 2
    ensures Sum16(s) == U16Of(s[0], s[1]) + Sum16(s[2..])
  {
  }

  lemma NothingSums()
    ensures Sum16([]) == 0
  {
  }

  lemma FourSum(s: seq<byte>)
    requires |s| == 4
    ensures Sum16(s) == U16Of(s[0], s[1]) + U16Of(s[2], s[3])
  {
    TakeTwo(s);
    TakeTwo(s[2..]);
    NothingSums();
    assert s[2..][2..] == [];
  }

  lemma WordSum(w: word)
    ensures Sum16(WordBytes(w)) == w / 0x1_0000 + w % 0x1_0000
  {
    WordOfByteOf(w);
    FourSum(WordBytes(w));
    hide ByteOf, Sum16;
    var b := WordBytes(w);
    Halves(w, U16Of(b[0], b[1]), U16Of(b[2], b[3]));
  }

  lemma Halves(w: word, hi: u16, lo: u16)
    requires w == hi * 0x1_0000 + lo
    ensures w / 0x1_0000 == hi && w % 0x1_0000 == lo
  {
  }

  /** The TCP sum is the sum of the pseudo-header's bytes followed by the segment's; RFC 9293 section 3.1. */
  lemma TcpSumIs(sip: word, dip: word, d: seq<byte>)
    requires |d| < 0x1_0000
    ensures TcpSum(sip, dip, d) == Sum16(WordBytes(sip) + WordBytes(dip) + [0, 6, Hi(|d|), Lo(|d|)] + d)
  {
    hide WordBytes, PseudoSum, Sum16;
    var a, b := WordBytes(sip), WordBytes(dip);
    WordLength(sip);
    WordLength(dip);
    WordSum(sip);
    WordSum(dip);
    Sum16Append(a, b);
    Sum16Append(a + b, [0, 6, Hi(|d|), Lo(|d|)]);
    Sum16Append(a + b + [0, 6, Hi(|d|), Lo(|d|)], d);
    ProtocolSum(|d|);
    PseudoParts(sip, dip, |d|);
  }

  lemma PseudoParts(sip: word, dip: word, n: u16)
    ensures PseudoSum(sip, dip, n)
         == (sip / 0x1_0000 + sip % 0x1_0000) + (dip / 0x1_0000 + dip % 0x1_0000) + (6 + n)
  {
  }

  lemma WordLength(w: word)
    ensures |WordBytes(w)| == 4
  {
  }

  lemma ProtocolSum(n: u16)
    ensures Sum16([0, 6, Hi(n), Lo(n)]) == 6 + n
  {
    FourSum([0, 6, Hi(n), Lo(n)]);
  }

  /** Replacing a 16-bit word at an even offset changes the sum by the difference. */
  lemma {:induction false} Sum16Replace(s: seq<byte>, k: nat, v: u16)
    requires k % 2 == 0 && k + 1 < |s|
    ensures Sum16(s[k := Hi(v)][k + 1 := Lo(v)]) == Sum16(s) - U16Of(s[k], s[k + 1]) + v
    decreases k
  {
    var t := s[k := Hi(v)][k + 1 := Lo(v)];
    if k > 0 {
      assert t[2..] == s[2..][k - 2 := Hi(v)][k - 1 := Lo(v)];
      Sum16Replace(s[2..], k - 2, v);
    } else {
      assert t[2..] == s[2..];
    }
  }

  /** A verifying string stops verifying when one 16-bit word changes, except 0 against 0xFFFF. */
  lemma DamageSeen(s: seq<byte>, k: nat, v: u16)
    requires k % 2 == 0 && k + 1 < |s| && Check(Sum16(s)) == 0
    ensures var w := U16Of(s[k], s[k + 1]);
      v != w && !(v == 0 && w == 0xFFFF) && !(v == 0xFFFF && w == 0)
      ==> Check(Sum16(s[k := Hi(v)][k + 1 := Lo(v)])) != 0
  {
    hide Sum16, Check;
    var w := U16Of(s[k], s[k + 1]);
    var m := Sum16(s[k := Hi(0)][k + 1 := Lo(0)]);
    Sum16Replace(s, k, 0);
    Sum16Replace(s, k, v);
    CheckAccepts(m, w);
    CheckAccepts(m, v);
  }
}
