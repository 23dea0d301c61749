/** Bytes, 16-bit and 32-bit words, and the big-endian layout the stack uses everywhere: byte 0 of a word is its most
    significant byte. */
module Bytes {

  type byte = x: int | 0 <= x < 0x100
  type u16 = x: int | 0 <= x < 0x1_0000
  type word = x: int | 0 <= x < 0x1_0000_0000

  /** Where 32-bit arithmetic wraps. */
  const WRAP: nat := 0x1_0000_0000

  datatype Option<+T> = None | Some(value: T)

  /** One AXI-Stream beat: a byte and the end-of-frame flag. */
  datatype Beat = Beat(data: byte, last: bool)

  /** Byte k of a word, counted from the most significant end. */
  function ByteOf(w: word, k: nat): byte
    requires k < 4
    decreases 3 - k, w
  {
    if k == 3 then w % 0x100 else ByteOf(w / 0x100, k + 1)
  }

  function WordOf(a: byte, b: byte, c: byte, d: byte): word {
    a * 0x100_0000 + b * 0x1_0000 + c * 0x100 + d
  }

  /** What is left of a number in a register of k bytes. */
  function Low(x: nat, k: nat): (r: nat)
    ensures r <= x
    decreases k, x
  {
    if k == 0 then 0 else Low(x / 0x100, k - 1) * 0x100 + x % 0x100
  }

  /** How many numbers k bytes can hold. */
  function Radix(k: nat): nat { if k == 0 then 1 else 0x100 * Radix(k - 1) }

  /** The number a byte string spells, the first byte being the most significant. */
  function Number(s: seq<byte>): nat
    decreases |s|
  {
    if s == [] then 0 else Number(s[..|s| - 1]) * 0x100 + s[|s| - 1]
  }

  /** A word with one of its bytes replaced. */
  function WithByte(w: word, k: nat, v: byte): word
    requires k < 4
  {
    if k == 0 then WordOf(v, ByteOf(w, 1), ByteOf(w, 2), ByteOf(w, 3))
    else if k == 1 then WordOf(ByteOf(w, 0), v, ByteOf(w, 2), ByteOf(w, 3))
    else if k == 2 then WordOf(ByteOf(w, 0), ByteOf(w, 1), v, ByteOf(w, 3))
    else WordOf(ByteOf(w, 0), ByteOf(w, 1), ByteOf(w, 2), v)
  }

  function Hi(x: u16): byte { x / 0x100 }

  function Lo(x: u16): byte { x % 0x100 }

  function U16Of(hi: byte, lo: byte): u16 { hi * 0x100 + lo }

  function WordBytes(w: word): seq<byte> {
    [ByteOf(w, 0), ByteOf(w, 1), ByteOf(w, 2), ByteOf(w, 3)]
  }

  /** Byte i of a string that is followed by zeros for ever. */
  function ByteAt(s: seq<byte>, i: nat): byte {
    if i < |s| then s[i] else 0
  }

  /** The words a byte string fills, the last one padded with zero bytes. */
  function Pack(s: seq<byte>): (ws: seq<word>)
    ensures |ws| == (|s| + 3) / 4
  {
    seq((|s| + 3) / 4, i requires 0 <= i < (|s| + 3) / 4 =>
      WordOf(ByteAt(s, 4 * i), ByteAt(s, 4 * i + 1), ByteAt(s, 4 * i + 2), ByteAt(s, 4 * i + 3)))
  }

  /** Byte i of a word memory. */
  function MemByte(ws: seq<word>, i: nat): byte
    requires i < 4 * |ws|
  {
    ByteOf(ws[i / 4], i % 4)
  }

  function Unpack(ws: seq<word>): (s: seq<byte>)
    ensures |s| == 4 * |ws|
    ensures forall i :: 0 <= i < |s| ==> s[i] == MemByte(ws, i)
  {
    seq(4 * |ws|, i requires 0 <= i < 4 * |ws| => MemByte(ws, i))
  }

  /** The n bytes a reader finds from word address base on. */
  function ReadBytes(ws: seq<word>, base: nat, n: nat): (s: seq<byte>)
    requires 4 * base + n <= 4 * |ws|
    ensures |s| == n
    ensures forall i :: 0 <= i < n ==> s[i] == MemByte(ws, 4 * base + i)
  {
    seq<byte>(n, i requires 0 <= i < n => MemByte(ws, 4 * base + i))
  }

  lemma ByteOfWordOf(a: byte, b: byte, c: byte, d: byte)
    ensures ByteOf(WordOf(a, b, c, d), 0) == a
    ensures ByteOf(WordOf(a, b, c, d), 1) == b
    ensures ByteOf(WordOf(a, b, c, d), 2) == c
    ensures ByteOf(WordOf(a, b, c, d), 3) == d
  {
    var w := WordOf(a, b, c, d);
    var x: word := a * 0x1_0000 + b * 0x100 + c;
    var y: word := a * 0x100 + b;
    assert w / 0x100 == x && x / 0x100 == y && y / 0x100 == a;
    assert ByteOf(w, 1) == ByteOf(x, 2) == ByteOf(y, 3);
    assert ByteOf(w, 0) == ByteOf(x, 1) == ByteOf(y, 2) == ByteOf(a, 3);
  }

  lemma ByteOfWithByte(w: word, k: nat, v: byte, j: nat)
    requires k < 4 && j < 4
    ensures ByteOf(WithByte(w, k, v), j) == if j == k then v else ByteOf(w, j)
  {
    if k == 0 {
      ByteOfWordOf(v, ByteOf(w, 1), ByteOf(w, 2), ByteOf(w, 3));
    } else if k == 1 {
      ByteOfWordOf(ByteOf(w, 0), v, ByteOf(w, 2), ByteOf(w, 3));
    } else if k == 2 {
      ByteOfWordOf(ByteOf(w, 0), ByteOf(w, 1), v, ByteOf(w, 3));
    } else {
      ByteOfWordOf(ByteOf(w, 0), ByteOf(w, 1), ByteOf(w, 2), v);
    }
  }

  lemma WordOfByteOf(w: word)
    ensures WordOf(ByteOf(w, 0), ByteOf(w, 1), ByteOf(w, 2), ByteOf(w, 3)) == w
  {
    var x: word := w / 0x100;
    var y: word := x / 0x100;
    var z: word := y / 0x100;
    assert ByteOf(w, 2) == ByteOf(x, 3) == x % 0x100;
    assert ByteOf(w, 1) == ByteOf(x, 2) == ByteOf(y, 3) == y % 0x100;
    assert ByteOf(w, 0) == ByteOf(x, 1) == ByteOf(y, 2) == ByteOf(z, 3) == z % 0x100 == z;
    hide ByteOf;
    assert w == x * 0x100 + w % 0x100 && x == y * 0x100 + x % 0x100 && y == z * 0x100 + y % 0x100;
  }

  /** Packing loses nothing: the bytes come back, followed by zero padding. */
  lemma UnpackPack(s: seq<byte>)
    ensures |s| <= |Unpack(Pack(s))|
    ensures Unpack(Pack(s))[..|s|] == s
    ensures forall i :: |s| <= i < |Unpack(Pack(s))| ==> Unpack(Pack(s))[i] == 0
  {
    forall i | 0 <= i < 4 * |Pack(s)| ensures MemByte(Pack(s), i) == ByteAt(s, i) {
      var j := i / 4;
      ByteOfWordOf(ByteAt(s, 4 * j), ByteAt(s, 4 * j + 1), ByteAt(s, 4 * j + 2), ByteAt(s, 4 * j + 3));
    }
  }

  lemma MemByteAt(ws: seq<word>, i: nat, k: nat)
    requires i < |ws| && k < 4
    ensures 4 * i + k < 4 * |ws| && MemByte(ws, 4 * i + k) == ByteOf(ws[i], k)
  {
    assert (4 * i + k) / 4 == i && (4 * i + k) % 4 == k;
  }

  lemma SplitMod(x: nat, m: nat)
    requires m > 0
    ensures x % (0x100 * m) == x / 0x100 % m * 0x100 + x % 0x100
  {
    var q, r := x / 0x100, x % 0x100;
    var p, s := q / m, q % m;
    assert x == 0x100 * q + r && q == m * p + s;
    assert x == (0x100 * m) * p + (0x100 * s + r);
    assert 0 <= 0x100 * s + r < 0x100 * m;
    RemainderIs(x, 0x100 * m, p, 0x100 * s + r);
  }
  lemma RemainderIs(x: nat, d: nat, q: nat, r: nat)
    requires x == d * q + r && r < d
    ensures x % d == r
  {
    QuotientLeast(d, q, r, x / d, x % d);
    QuotientLeast(d, x / d, x % d, q, r);
  }

  lemma QuotientLeast(d: nat, q: nat, r: nat, p: nat, s: nat)
    requires r < d && s < d && d * q + r == d * p + s
    ensures q <= p
  {
    if q > p {
      Multiples(d, p, q);
    }
  }

  lemma {:induction false} Multiples(d: nat, p: nat, q: nat)
    requires p < q
    ensures d * q >= d * p + d
  {
    if p + 1 < q {
      Multiples(d, p, q - 1);
    }
    assert d * q == d * (q - 1) + d;
  }
  /** A register of k bytes keeps the remainder modulo 256 to the k. */
  lemma {:induction false} LowIsMod(x: nat, k: nat)
    ensures Radix(k) > 0 && Low(x, k) == x % Radix(k)
    decreases k
  {
    if k > 0 {
      LowIsMod(x / 0x100, k - 1);
      SplitMod(x, Radix(k - 1));
    }
  }

  lemma LowFits(x: nat, k: nat)
    ensures Low(x, k) < Radix(k)
    ensures x < Radix(k) ==> Low(x, k) == x
  {
    LowIsMod(x, k);
  }

  lemma {:induction false} NumberFits(s: seq<byte>)
    ensures Number(s) < Radix(|s|)
    decreases |s|
  {
    if s != [] {
      NumberFits(s[..|s| - 1]);
    }
  }

  lemma NumberIsWord(s: seq<byte>)
    requires |s| <= 4
    ensures Number(s) < WRAP
  {
    NumberFits(s);
    assert |s| == 0 || |s| == 1 || |s| == 2 || |s| == 3 || |s| == 4;
  }
}
