/** Byte access to a DHCP message kept in words, and the option writer and scanner of layer_dhcp.cpp. */
module DhcpOptions {
  import opened Bytes

  /** Options start after the 240-byte fixed part. */
  const OPTIONS_AT: nat := 240
  const END: byte := 255
  const PAD: byte := 0

  datatype DhcpOption = DhcpOption(code: byte, data: seq<byte>)

  /** A memory with byte p replaced. */
  function WithByteAt(mem: seq<word>, p: nat, v: byte): (r: seq<word>)
    requires p < 4 * |mem|
    ensures |r| == |mem|
  {
    mem[p / 4 := WithByte(mem[p / 4], p % 4, v)]
  }

  /** A memory with the bytes of s written from byte p on. */
  function WithBytes(mem: seq<word>, p: nat, s: seq<byte>): (r: seq<word>)
    requires p + |s| <= 4 * |mem|
    ensures |r| == |mem|
    decreases |s|
  {
    if s == [] then mem else WithBytes(WithByteAt(mem, p, s[0]), p + 1, s[1..])
  }

  /** What dhcp_write_opt puts down: code, length, and as much of its four data bytes as the length asks for. */
  function OptBytes(code: byte, len: byte, d: seq<byte>): seq<byte>
    requires |d| == 4
  {
    [code, len] + d[..if len < 4 then len else 4]
  }

  lemma WithByteReads(mem: seq<word>, p: nat, v: byte, i: nat)
    requires p < 4 * |mem| && i < 4 * |mem|
    ensures MemByte(WithByteAt(mem, p, v), i) == if i == p then v else MemByte(mem, i)
  {
    var j := p / 4;
    if i / 4 == j {
      ByteOfWithByte(mem[j], p % 4, v, i % 4);
    }
    hide ByteOf, WithByte;
    assert p == 4 * j + p % 4 && i == 4 * (i / 4) + i % 4;
  }

  /** Writing bytes changes exactly those bytes of the memory. */
  lemma {:induction false} WithBytesReads(mem: seq<word>, p: nat, s: seq<byte>, i: nat)
    requires p + |s| <= 4 * |mem| && i < 4 * |mem|
    ensures MemByte(WithBytes(mem, p, s), i) == if p <= i < p + |s| then s[i - p] else MemByte(mem, i)
    decreases |s|
  {
    hide WithByteAt, MemByte;
    if s != [] {
      WithByteReads(mem, p, s[0], i);
      WithBytesReads(WithByteAt(mem, p, s[0]), p + 1, s[1..], i);
    }
  }

  lemma {:induction false} WithBytesAppend(mem: seq<word>, p: nat, a: seq<byte>, b: seq<byte>, s: seq<byte>)
    requires p + |s| <= 4 * |mem| && s == a + b
    ensures WithBytes(WithBytes(mem, p, a), p + |a|, b) == WithBytes(mem, p, s)
    decreases |a|
  {
    hide WithByteAt;
    if a == [] {
      assert s == b;
    } else {
      assert s[1..] == a[1..] + b;
      WithBytesAppend(WithByteAt(mem, p, a[0]), p + 1, a[1..], b, s[1..]);
    }
  }

  lemma OneByte(mem: seq<word>, p: nat, v: byte)
    requires p + 1 <= 4 * |mem|
    ensures WithBytes(mem, p, [v]) == WithByteAt(mem, p, v)
  {
    hide WithByteAt;
    assert [v][1..] == [];
  }

  lemma OneMore(mem: seq<word>, p: nat, s: seq<byte>, v: byte)
    requires p + |s| + 1 <= 4 * |mem|
    ensures WithByteAt(WithBytes(mem, p, s), p + |s|, v) == WithBytes(mem, p, s + [v])
  {
    hide WithByteAt;
    OneByte(WithBytes(mem, p, s), p + |s|, v);
    WithBytesAppend(mem, p, s, [v], s + [v]);
  }

  class Access {
    /** dhcp_write_byte: byte off of a message at word address base. */
    static method WriteByte(buf: array<word>, base: nat, off: nat, v: byte)
      requires 4 * base + off < 4 * buf.Length
      modifies buf
      ensures buf[..] == WithByteAt(old(buf[..]), 4 * base + off, v)
    {
      hide WithByte;
      buf[base + off / 4] := WithByte(buf[base + off / 4], off % 4, v);
    }

    /** dhcp_read_byte. */
    static method ReadByte(buf: array<word>, base: nat, off: nat) returns (b: byte)
      requires 4 * base + off < 4 * buf.Length
      ensures b == MemByte(buf[..], 4 * base + off)
    {
      hide ByteOf;
      b := ByteOf(buf[base + off / 4], off % 4);
    }

    /** dhcp_write_opt; the offset comes back advanced. */
    static method WriteOpt(buf: array<word>, base: nat, off: nat, code: byte, len: byte, d: seq<byte>)
        returns (next: nat)
      requires |d| == 4 && 4 * base + off + |OptBytes(code, len, d)| <= 4 * buf.Length
      modifies buf
      ensures next == off + |OptBytes(code, len, d)|
      ensures buf[..] == WithBytes(old(buf[..]), 4 * base + off, OptBytes(code, len, d))
    {
      hide WithByteAt, WithBytes;
      ghost var mem := buf[..];
      ghost var p := 4 * base + off;
      OneByte(mem, p, code);
      WriteByte(buf, base, off, code);
      OneMore(mem, p, [code], len);
      WriteByte(buf, base, off + 1, len);
      next := off + 2;
      assert [code] + [len] == [code, len] + d[..0];
      var n := if len < 4 then len else 4;
      for i := 0 to n
        invariant next == off + 2 + i
        invariant buf[..] == WithBytes(mem, p, [code, len] + d[..i])
      {
        OneMore(mem, p, [code, len] + d[..i], d[i]);
        assert ([code, len] + d[..i]) + [d[i]] == [code, len] + d[..i + 1];
        WriteByte(buf, base, next, d[i]);
        next := next + 1;
      }
    }

    static method ReadData(buf: array<word>, base: nat, off: nat, n: nat) returns (out: seq<byte>)
      requires 4 * base + off + n <= 4 * buf.Length
      ensures |out| == n && forall i :: 0 <= i < n ==> out[i] == MemByte(buf[..], 4 * base + off + i)
    {
      hide MemByte;
      out := [];
      for i := 0 to n
        invariant |out| == i && forall j :: 0 <= j < i ==> out[j] == MemByte(buf[..], 4 * base + off + j)
      {
        var b := ReadByte(buf, base, off + i);
        out := out + [b];
      }
    }

    /** dhcp_read_opt: 0 when the option is absent (or empty). */
    static method ReadOpt(buf: array<word>, base: nat, msgBytes: u16, target: byte) returns (len: byte, out: seq<byte>)
      requires 4 * base + msgBytes + 4 <= 4 * buf.Length
      ensures var r := Scan(ReadBytes(buf[..], base, msgBytes + 4), OPTIONS_AT, msgBytes, target);
        out == (if r.Some? then r.value else []) && len == |out|
    {
      hide MemByte, Scan, ReadBytes;
      ghost var m := ReadBytes(buf[..], base, msgBytes + 4);
      var off := OPTIONS_AT;
      len, out := 0, [];
      while off < msgBytes - 1
        invariant off >= 0 && Scan(m, OPTIONS_AT, msgBytes, target) == Scan(m, off, msgBytes, target)
        decreases msgBytes - off
      {
        ScanOnce(m, off, msgBytes, target);
        var c := ReadByte(buf, base, off);
        if c == END {
          return;
        }
        if c == PAD {
          off := off + 1;
          continue;
        }
        var l := ReadByte(buf, base, off + 1);
        if c == target && l <= 4 {
          out := ReadData(buf, base, off + 2, l);
          assert out == m[off + 2..off + 2 + l];
          len := l;
          return;
        }
        off := off + 2 + l;
      }
      ScanOnce(m, off, msgBytes, target);
    }
  }

  /** The scan as a function of the message bytes. */
  function Scan(m: seq<byte>, off: nat, limit: nat, target: byte): (r: Option<seq<byte>>)
    requires limit + 4 <= |m|
    ensures r.Some? ==> |r.value| <= 4
    decreases limit - off
  {
    if off >= limit - 1 || m[off] == END then None
    else if m[off] == PAD then Scan(m, off + 1, limit, target)
    else if m[off] == target && m[off + 1] <= 4 then Some(m[off + 2..off + 2 + m[off + 1]])
    else Scan(m, off + 2 + m[off + 1], limit, target)
  }

  /** One turn of the scan. */
  lemma ScanOnce(m: seq<byte>, off: nat, limit: nat, target: byte)
    requires limit + 4 <= |m|
    ensures Scan(m, off, limit, target)
         == if off >= limit - 1 || m[off] == END then None
            else if m[off] == PAD then Scan(m, off + 1, limit, target)
            else if m[off] == target && m[off + 1] <= 4 then Some(m[off + 2..off + 2 + m[off + 1]])
            else Scan(m, off + 2 + m[off + 1], limit, target)
  {
  }

  // ---------------------------------------------------------------- write, then read

  predicate Writable(o: DhcpOption) {
    o.code != END && o.code != PAD && |o.data| <= 4
  }

  function OneOption(o: DhcpOption): seq<byte>
    requires Writable(o)
  {
    var len: byte := |o.data|;
    [o.code, len] + o.data
  }

  function Encoded(opts: seq<DhcpOption>): seq<byte>
    requires forall i :: 0 <= i < |opts| ==> Writable(opts[i])
  {
    if opts == [] then []
    else
      OneOption(opts[0]) + Encoded(opts[1..])
  }

  /** The data of the first option with a code. */
  function FirstOf(opts: seq<DhcpOption>, code: byte): Option<seq<byte>> {
    if opts == [] then None
    else if opts[0].code == code then Some(opts[0].data)
    else FirstOf(opts[1..], code)
  }

  /** Scanning an encoded list that ends with the end option, or at the end of the message. */
  lemma {:induction false} ScanEncoded(m: seq<byte>, off: nat, limit: nat, opts: seq<DhcpOption>, target: byte)
    requires limit + 4 <= |m| && forall i :: 0 <= i < |opts| ==> Writable(opts[i])
    requires off + |Encoded(opts)| <= limit && m[off..off + |Encoded(opts)|] == Encoded(opts)
    requires m[off + |Encoded(opts)|] == END
    ensures Scan(m, off, limit, target) == FirstOf(opts, target)
    decreases |opts|
  {
    if opts != [] {
      EncodedHead(m, off, opts);
      hide Encoded, OneOption;
      ScanEncoded(m, off + 2 + |opts[0].data|, limit, opts[1..], target);
    }
  }

  /** What the head of an encoded list looks like to a reader. */
  lemma EncodedHead(m: seq<byte>, off: nat, opts: seq<DhcpOption>)
    requires opts != [] && forall i :: 0 <= i < |opts| ==> Writable(opts[i])
    requires off + |Encoded(opts)| <= |m| && m[off..off + |Encoded(opts)|] == Encoded(opts)
    ensures var o, n := opts[0], 2 + |opts[0].data|;
      && |Encoded(opts)| == n + |Encoded(opts[1..])|
      && m[off] == o.code && m[off + 1] == |o.data| && m[off + 2..off + n] == o.data
      && m[off + n..off + |Encoded(opts)|] == Encoded(opts[1..])
  {
    hide OneOption;
    OneOptionRead(opts[0]);
    SliceApart(m, off, OneOption(opts[0]), Encoded(opts[1..]));
    HeadRead(m, off, OneOption(opts[0]));
  }

  lemma OneOptionRead(o: DhcpOption)
    requires Writable(o)
    ensures var s := OneOption(o); |s| == 2 + |o.data| && s[0] == o.code && s[1] == |o.data| && s[2..] == o.data
  {
  }

  lemma HeadRead(m: seq<byte>, off: nat, s: seq<byte>)
    requires 2 <= |s| && off + |s| <= |m| && m[off..off + |s|] == s
    ensures m[off] == s[0] && m[off + 1] == s[1] && m[off + 2..off + |s|] == s[2..]
  {
  }

  lemma SliceApart(m: seq<byte>, off: nat, a: seq<byte>, b: seq<byte>)
    requires off + |a| + |b| <= |m| && m[off..off + |a| + |b|] == a + b
    ensures m[off..off + |a|] == a && m[off + |a|..off + |a| + |b|] == b
  {
    var s := m[off..off + |a| + |b|];
    assert m[off..off + |a|] == s[..|a|] && m[off + |a|..off + |a| + |b|] == s[|a|..];
  }

  lemma SliceWritten(mem: seq<word>, base: nat, off: nat, s: seq<byte>, n: nat)
    requires 4 * base + n <= 4 * |mem| && off + |s| <= n
    ensures ReadBytes(WithBytes(mem, 4 * base + off, s), base, n)[off..off + |s|] == s
  {
    hide WithBytes, MemByte;
    var m := ReadBytes(WithBytes(mem, 4 * base + off, s), base, n);
    forall j | off <= j < off + |s| ensures m[j] == s[j - off] {
      WithBytesReads(mem, 4 * base + off, s, 4 * base + j);
    }
  }

  lemma Prefixed(m: seq<byte>, off: nat, a: seq<byte>, b: seq<byte>)
    requires off + |a| + |b| <= |m| && m[off..off + |a| + |b|] == a + b && b != []
    ensures m[off..off + |a|] == a && m[off + |a|] == b[0]
  {
    var t := m[off..off + |a| + |b|];
    assert m[off..off + |a|] == t[..|a|] == a;
    assert m[off + |a|] == t[|a|];
  }

  /** Options written from byte 240 on and closed by the end option are found again: for every target the data of the
      first option with that code, nothing when there is none; bytes before 240 stay as they were. */
  lemma OptionsRoundTrip(mem: seq<word>, base: nat, opts: seq<DhcpOption>, limit: u16, target: byte)
    requires forall i :: 0 <= i < |opts| ==> Writable(opts[i])
    requires 4 * base + limit + 4 <= 4 * |mem| && OPTIONS_AT + |Encoded(opts)| <= limit
    ensures var out := WithBytes(mem, 4 * base + OPTIONS_AT, Encoded(opts) + [END, 0]);
      && Scan(ReadBytes(out, base, limit + 4), OPTIONS_AT, limit, target) == FirstOf(opts, target)
      && forall j :: base <= j < base + OPTIONS_AT / 4 ==> out[j] == mem[j]
  {
    hide Encoded, WithBytes, MemByte;
    var e := Encoded(opts);
    var s := e + [END, 0];
    var out := WithBytes(mem, 4 * base + OPTIONS_AT, s);
    var m := ReadBytes(out, base, limit + 4);
    SliceWritten(mem, base, OPTIONS_AT, s, limit + 4);
    Prefixed(m, OPTIONS_AT, e, [END, 0]);
    ScanEncoded(m, OPTIONS_AT, limit, opts, target);
    forall j | base <= j < base + OPTIONS_AT / 4 ensures out[j] == mem[j] {
      FixedPartKept(mem, base, s, j);
    }
  }

  lemma FixedPartKept(mem: seq<word>, base: nat, s: seq<byte>, j: nat)
    requires 4 * base + OPTIONS_AT + |s| <= 4 * |mem| && base <= j < base + OPTIONS_AT / 4
    ensures WithBytes(mem, 4 * base + OPTIONS_AT, s)[j] == mem[j]
  {
    hide ByteOf, WithBytes;
    var out := WithBytes(mem, 4 * base + OPTIONS_AT, s);
    forall k: nat | k < 4 ensures ByteOf(out[j], k) == ByteOf(mem[j], k) {
      WithBytesReads(mem, 4 * base + OPTIONS_AT, s, 4 * j + k);
      MemByteAt(out, j, k);
      MemByteAt(mem, j, k);
    }
    WordOfByteOf(out[j]);
    WordOfByteOf(mem[j]);
  }
}
