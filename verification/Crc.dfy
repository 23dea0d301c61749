/** CRC-32 as the MAC computes it (eth_utils.h): reflected polynomial, one byte at a time, register preset to all
    ones, the complement sent as frame check sequence. */
module Crc {
  import opened Bytes

  const POLYNOMIAL: bv32 := 0xEDB88320
  const INIT: bv32 := 0xFFFF_FFFF

  /** What the register of a receiver holds after any frame with a correct check sequence. */
  const RESIDUE: bv32 := 0xDEBB20E3

  /** One turn of the loop of crc32_byte. */
  function BitStep(c: bv32): bv32 {
    if c & 1 == 1 then (c >> 1) ^ POLYNOMIAL else c >> 1
  }

  function Shift(n: nat, c: bv32): bv32 {
    if n == 0 then c else Shift(n - 1, BitStep(c))
  }

  function Mask(on: bool, m: bv32): bv32 { if on then m else 0 }

  /** A register value with one more bit below it. */
  function Join(bit: bool, v: bv32): bv32 {
    Mask(bit, 1) | (v << 1)
  }

  /** A number of n bits, as the register holds it. */
  function ToReg(x: nat, n: nat): bv32 {
    if n == 0 then 0 else Join(x % 2 == 1, ToReg(x / 2, n - 1))
  }

  function Half(c: bv32): bv32 { c >> 1 }

  /** The number in the lowest n bits of the register. */
  function FromReg(c: bv32, n: nat): nat {
    if n == 0 then 0 else (if c & 1 == 1 then 1 else 0) + 2 * FromReg(Half(c), n - 1)
  }

  function Pow2(n: nat): nat {
    if n == 0 then 1 else 2 * Pow2(n - 1)
  }

  lemma {:induction false} FromRegBound(c: bv32, n: nat)
    ensures FromReg(c, n) < Pow2(n)
  {
    if n > 0 {
      FromRegBound(Half(c), n - 1);
    }
  }

  function LowByte(c: bv32): byte {
    FromRegBound(c, 8);
    FromReg(c, 8)
  }

  function ByteStep(b: byte, c: bv32): bv32 {
    Shift(8, c ^ ToReg(b, 8))
  }

  method Crc32Byte(data: byte, crc: bv32) returns (r: bv32)
    ensures r == ByteStep(data, crc)
  {
    r := crc ^ ToReg(data, 8);
    for i := 0 to 8
      invariant Shift(8 - i, r) == ByteStep(data, crc)
    {
      if r & 1 == 1 {
        r := (r >> 1) ^ POLYNOMIAL;
      } else {
        r := r >> 1;
      }
    }
  }

  /** The register after a byte string. */
  function Run(c: bv32, s: seq<byte>): bv32
    decreases |s|
  {
    if s == [] then c else Run(ByteStep(s[0], c), s[1..])
  }

  /** The check sequence for a final register value, as it goes on the wire: low byte first. */
  function FcsBytes(c: bv32): (s: seq<byte>)
    ensures |s| == 4
  {
    LowFirst(c ^ 0xFFFF_FFFF)
  }

  /** Byte k of the check sequence. */
  function FcsByte(c: bv32, k: nat): (b: byte)
    requires k < 4
    ensures b == FcsBytes(c)[k]
  {
    RegByte(c ^ 0xFFFF_FFFF, k)
  }

  /** Byte k of a register value, counted from the low end. */
  function RegByte(fcs: bv32, k: nat): byte
    requires k < 4
  {
    LowByte(if k == 0 then fcs else if k == 1 then fcs >> 8 else if k == 2 then fcs >> 16 else fcs >> 24)
  }

  /** The four bytes of the register, lowest first. */
  function LowFirst(fcs: bv32): (s: seq<byte>)
    ensures |s| == 4
  {
    [RegByte(fcs, 0), RegByte(fcs, 1), RegByte(fcs, 2), RegByte(fcs, 3)]
  }

  // ---------------------------------------------------------------- bit-serial view

  /** The n lowest bits of a number, lowest first. */
  function BitsOf(x: nat, n: nat): (bits: seq<bool>)
    ensures |bits| == n
  {
    if n == 0 then [] else [x % 2 == 1] + BitsOf(x / 2, n - 1)
  }

  /** The bits of a byte string in wire order: each byte low bit first. */
  function Bits(s: seq<byte>): (bits: seq<bool>)
    ensures |bits| == 8 * |s|
  {
    if s == [] then [] else BitsOf(s[0], 8) + Bits(s[1..])
  }

  /** The bit-serial register after one more input bit. */
  function Feed(c: bv32, bit: bool): bv32 {
    BitStep(c ^ Mask(bit, 1))
  }

  /** The bit-serial register: one input bit per step. */
  function Serial(c: bv32, bits: seq<bool>): bv32
    decreases |bits|
  {
    if bits == [] then c else Serial(Feed(c, bits[0]), bits[1..])
  }

  /** Up to 32 bits as a register value, first bit lowest. */
  function Value(bits: seq<bool>): (v: bv32)
    requires |bits| <= 32
  {
    if bits == [] then 0 else Join(bits[0], Value(bits[1..]))
  }

  // Facts of 32-bit arithmetic, each on its own.

  lemma LowBit(x: bv32)
    ensures x & 1 == 0 || x & 1 == 1
  {
  }

  lemma BitStepLinear(x: bv32, y: bv32)
    ensures BitStep(x ^ y) == BitStep(x) ^ BitStep(y)
  {
    LowBit(x);
    LowBit(y);
    assert (x & 1 == 1) == (y & 1 == 1) <==> (x ^ y) & 1 == 0;
  }

  lemma {:induction false} ShiftInjective(n: nat, x: bv32, y: bv32)
    requires Shift(n, x) == Shift(n, y)
    ensures x == y
  {
    if n > 0 {
      ShiftInjective(n - 1, BitStep(x), BitStep(y));
    }
  }

  lemma FeedInjective(x: bv32, y: bv32, bit: bool)
    requires Feed(x, bit) == Feed(y, bit)
    ensures x == y
  {
    var m := Mask(bit, 1);
  }

  lemma {:induction false} SerialInjective(x: bv32, y: bv32, bits: seq<bool>)
    requires Serial(x, bits) == Serial(y, bits)
    ensures x == y
    decreases |bits|
  {
    if bits != [] {
      SerialInjective(Feed(x, bits[0]), Feed(y, bits[0]), bits[1..]);
      FeedInjective(x, y, bits[0]);
    }
  }

  lemma {:induction false} SerialAppend(c: bv32, a: seq<bool>, b: seq<bool>)
    ensures Serial(c, a + b) == Serial(Serial(c, a), b)
    decreases |a|
  {
    if a == [] {
      assert a + b == b;
    } else {
      assert (a + b)[1..] == a[1..] + b;
      SerialAppend(Feed(c, a[0]), a[1..], b);
    }
  }

  function Up(low: bv32): bv32 { (low << 1) | 1 }

  predicate Within(v: bv32, low: bv32) { v & low == v }

  predicate TopClear(v: bv32) { v & 0x8000_0000 == 0 }

  /** The lowest n bits of the register. */
  function Low(n: nat): bv32 {
    if n == 0 then 0 else Up(Low(n - 1))
  }

  lemma JoinWithin(bit: bool, v: bv32, low: bv32)
    requires Within(v, low)
    ensures Within(Join(bit, v), Up(low))
  {
    DoubledWithin(v, low, Mask(bit, 1));
  }

  lemma DoubledWithin(v: bv32, low: bv32, m: bv32)
    requires v & low == v && m <= 1
    ensures (m | (v << 1)) & ((low << 1) | 1) == m | (v << 1)
  {
  }

  lemma UpWithin(v: bv32, low: bv32)
    requires Within(v, low)
    ensures Within(Up(v), Up(low))
  {
  }

  lemma ZeroWithin(v: bv32)
    ensures Within(0, v) && Within(v, v)
  {
  }

  lemma {:induction false} LowGrows(m: nat, n: nat)
    requires m <= n
    ensures Within(Low(m), Low(n))
  {
    hide Up, Within;
    if m == 0 {
      ZeroWithin(Low(n));
    } else {
      LowGrows(m - 1, n - 1);
      UpWithin(Low(m - 1), Low(n - 1));
    }
  }

  lemma LowAt31()
    ensures Low(31) == 0x7FFF_FFFF
  {
    assert Low(8) == 0xFF;
    assert Low(16) == 0xFFFF;
    assert Low(24) == 0xFF_FFFF;
  }

  lemma {:induction false} ValueWithin(bits: seq<bool>)
    requires |bits| <= 32
    ensures Within(Value(bits), Low(|bits|))
    decreases |bits|
  {
    hide Up, Within, Join;
    if bits == [] {
      ZeroWithin(0);
    } else {
      ValueWithin(bits[1..]);
      JoinWithin(bits[0], Value(bits[1..]), Low(|bits| - 1));
    }
  }

  /** Fewer than 32 bits leave the top bit of the register clear. */
  lemma ValueTop(bits: seq<bool>)
    requires |bits| <= 31
    ensures TopClear(Value(bits))
  {
    ValueWithin(bits);
    LowGrows(|bits|, 31);
    LowAt31();
  }

  function Double(v: bv32): bv32 { v << 1 }

  function Xor(x: bv32, y: bv32): bv32 { x ^ y }

  /** The bit that enters next is the one the doubled value keeps at its bottom. */
  lemma BitStepDouble(v: bv32)
    requires TopClear(v)
    ensures BitStep(Double(v)) == v
  {
  }

  lemma JoinXor(c: bv32, bit: bool, v: bv32)
    ensures Xor(c, Join(bit, v)) == Xor(Xor(c, Mask(bit, 1)), Double(v))
  {
    XorDoubled(c, Mask(bit, 1), v);
  }

  lemma XorDoubled(c: bv32, m: bv32, v: bv32)
    requires m <= 1
    ensures c ^ (m | (v << 1)) == (c ^ m) ^ (v << 1)
  {
  }

  lemma StepXor(x: bv32, y: bv32, z: bv32)
    requires z == Xor(x, y)
    ensures BitStep(z) == Xor(BitStep(x), BitStep(y))
  {
    BitStepLinear(x, y);
  }

  lemma FeedAhead(c: bv32, bit: bool, v: bv32)
    requires TopClear(v)
    ensures BitStep(Xor(c, Join(bit, v))) == Xor(BitStep(Xor(c, Mask(bit, 1))), v)
  {
    hide *;
    JoinXor(c, bit, v);
    StepXor(Xor(c, Mask(bit, 1)), Double(v), Xor(c, Join(bit, v)));
    BitStepDouble(v);
  }

  lemma FeedIsStep(c: bv32, bit: bool)
    ensures Feed(c, bit) == BitStep(Xor(c, Mask(bit, 1)))
    ensures Xor(c, 0) == c
  {
  }

  /** Up to 32 input bits may be fed at once instead of one by one. */
  lemma {:induction false} SerialIsShift(c: bv32, bits: seq<bool>)
    requires |bits| <= 32
    ensures Serial(c, bits) == Shift(|bits|, Xor(c, Value(bits)))
    decreases |bits|
  {
    hide Feed, BitStep, Xor, Join, Mask, TopClear;
    if bits == [] {
      FeedIsStep(c, true);
    } else {
      var v := Value(bits[1..]);
      SerialIsShift(Feed(c, bits[0]), bits[1..]);
      ValueTop(bits[1..]);
      FeedAhead(c, bits[0], v);
      FeedIsStep(c, bits[0]);
    }
  }

  lemma {:induction false} ValueInjective(a: seq<bool>, b: seq<bool>)
    requires |a| == |b| <= 32 && Value(a) == Value(b)
    ensures a == b
    decreases |a|
  {
    if a != [] {
      ValueTop(a[1..]);
      ValueTop(b[1..]);
      ValueInjective(a[1..], b[1..]);
      assert a == [a[0]] + a[1..] && b == [b[0]] + b[1..];
    }
  }

  // ---------------------------------------------------------------- bytes as bits

  lemma {:induction false} ToRegIsValue(x: nat, n: nat)
    requires n <= 32
    ensures Value(BitsOf(x, n)) == ToReg(x, n)
  {
    hide Join;
    if n > 0 {
      ToRegIsValue(x / 2, n - 1);
    }
  }

  lemma StepIsShift(b: byte, c: bv32)
    ensures ByteStep(b, c) == Shift(8, Xor(c, ToReg(b, 8)))
  {
    hide Shift, ToReg;
  }

  /** Taking a byte at a time is the same as taking its bits one at a time, low bit first. */
  lemma ByteIsSerial(b: byte, c: bv32)
    ensures ByteStep(b, c) == Serial(c, BitsOf(b, 8))
  {
    hide *;
    ToRegIsValue(b, 8);
    SerialIsShift(c, BitsOf(b, 8));
    StepIsShift(b, c);
  }

  lemma {:induction false} RunIsSerial(c: bv32, s: seq<byte>)
    ensures Run(c, s) == Serial(c, Bits(s))
    decreases |s|
  {
    hide ByteStep, Feed, BitsOf;
    if s != [] {
      RunIsSerial(ByteStep(s[0], c), s[1..]);
      ByteIsSerial(s[0], c);
      SerialAppend(c, BitsOf(s[0], 8), Bits(s[1..]));
    }
  }

  lemma {:induction false} RunAppend(c: bv32, a: seq<byte>, b: seq<byte>)
    ensures Run(c, a + b) == Run(Run(c, a), b)
    decreases |a|
  {
    hide ByteStep;
    if a == [] {
      assert a + b == b;
    } else {
      assert (a + b)[1..] == a[1..] + b;
      RunAppend(ByteStep(a[0], c), a[1..], b);
    }
  }

  /** A number below 2^n is determined by its n low bits. */
  lemma {:induction false} BitsOfInjective(a: nat, b: nat, n: nat)
    requires a < Pow2(n) && b < Pow2(n) && BitsOf(a, n) == BitsOf(b, n)
    ensures a == b
  {
    if n > 0 {
      assert BitsOf(a, n)[0] == BitsOf(b, n)[0];
      assert BitsOf(a, n)[1..] == BitsOf(b, n)[1..];
      BitsOfInjective(a / 2, b / 2, n - 1);
    }
  }

  lemma {:induction false} BitsInjective(a: seq<byte>, b: seq<byte>)
    requires |a| == |b| && Bits(a) == Bits(b)
    ensures a == b
  {
    hide BitsOf;
    if a != [] {
      assert Bits(a)[..8] == BitsOf(a[0], 8) && Bits(b)[..8] == BitsOf(b[0], 8);
      assert Bits(a)[8..] == Bits(a[1..]) && Bits(b)[8..] == Bits(b[1..]);
      BitsOfInjective(a[0], b[0], 8);
      BitsInjective(a[1..], b[1..]);
    }
  }

  /** Bit i of the string comes from byte i / 8. */
  lemma {:induction false} BitsAt(s: seq<byte>, i: nat)
    requires i < 8 * |s|
    ensures Bits(s)[i] == BitsOf(s[i / 8], 8)[i % 8]
  {
    hide BitsOf;
    if i >= 8 {
      BitsAt(s[1..], i - 8);
      assert (i - 8) / 8 == i / 8 - 1 && (i - 8) % 8 == i % 8;
      assert Bits(s)[i] == Bits(s[1..])[i - 8];
    }
  }

  // ---------------------------------------------------------------- error detection

  /** Bit strings of one length that differ, but only inside a window of 32 bits, leave the register different. */
  lemma SerialBurst(c: bv32, a: seq<bool>, b: seq<bool>, k: nat)
    requires |a| == |b| && a != b
    requires forall i :: 0 <= i < |a| && a[i] != b[i] ==> k <= i < k + 32
    ensures Serial(c, a) != Serial(c, b)
  {
    hide Serial;
    var e := if k + 32 < |a| then k + 32 else |a|;
    SameOutside(a, b, k, e);
    Framed(a, k, e);
    Framed(b, k, e);
    SerialFramed(c, a[..k], a[k..e], b[k..e], a[e..]);
  }

  lemma SameOutside(a: seq<bool>, b: seq<bool>, k: nat, e: nat)
    requires |a| == |b| && a != b && e <= |a|
    requires forall i :: 0 <= i < |a| && a[i] != b[i] ==> k <= i < e
    ensures k <= e && a[..k] == b[..k] && a[e..] == b[e..] && a[k..e] != b[k..e]
  {
    var i :| 0 <= i < |a| && a[i] != b[i];
    assert a[k..e][i - k] == a[i] && b[k..e][i - k] == b[i];
  }

  lemma Framed(a: seq<bool>, k: nat, e: nat)
    requires k <= e <= |a|
    ensures a == a[..k] + a[k..e] + a[e..]
  {
  }

  lemma SerialFramed(c: bv32, before: seq<bool>, u: seq<bool>, v: seq<bool>, after: seq<bool>)
    requires |u| == |v| <= 32 && u != v
    ensures Serial(c, before + u + after) != Serial(c, before + v + after)
  {
    hide Serial;
    var r := Serial(c, before);
    SerialAppend(c, before + u, after);
    SerialAppend(c, before + v, after);
    SerialAppend(c, before, u);
    SerialAppend(c, before, v);
    WindowDiffers(r, u, v);
    if Serial(Serial(r, u), after) == Serial(Serial(r, v), after) {
      SerialInjective(Serial(r, u), Serial(r, v), after);
    }
  }

  lemma WindowDiffers(r: bv32, u: seq<bool>, v: seq<bool>)
    requires |u| == |v| <= 32 && u != v
    ensures Serial(r, u) != Serial(r, v)
  {
    hide Serial, Shift, Value, Xor;
    SerialIsShift(r, u);
    SerialIsShift(r, v);
    if Serial(r, u) == Serial(r, v) {
      ShiftInjective(|u|, Xor(r, Value(u)), Xor(r, Value(v)));
      XorInjective(r, Value(u), Value(v));
      ValueInjective(u, v);
    }
  }

  lemma XorInjective(r: bv32, x: bv32, y: bv32)
    requires Xor(r, x) == Xor(r, y)
    ensures x == y
  {
  }

  /** Every error burst of at most 32 bits in wire order, byte aligned or not, changes the register. */
  lemma BurstDetected(c: bv32, a: seq<byte>, b: seq<byte>, k: nat)
    requires |a| == |b| && a != b
    requires forall i :: 0 <= i < 8 * |a| && Bits(a)[i] != Bits(b)[i] ==> k <= i < k + 32
    ensures Run(c, a) != Run(c, b)
  {
    RunIsSerial(c, a);
    RunIsSerial(c, b);
    if Bits(a) == Bits(b) {
      BitsInjective(a, b);
    }
    hide Serial, Run, Bits;
    SerialBurst(c, Bits(a), Bits(b), k);
  }

  /** In particular, damage confined to four consecutive bytes is always seen. */
  lemma FourByteBurstDetected(c: bv32, a: seq<byte>, b: seq<byte>, k: nat)
    requires |a| == |b| && a != b
    requires forall i :: 0 <= i < |a| && a[i] != b[i] ==> k <= i < k + 4
    ensures Run(c, a) != Run(c, b)
  {
    forall i | 0 <= i < 8 * |a| && Bits(a)[i] != Bits(b)[i] ensures 8 * k <= i < 8 * k + 32 {
      hide Bits;
      BitsAt(a, i);
      BitsAt(b, i);
      assert a[i / 8] != b[i / 8];
    }
    BurstDetected(c, a, b, 8 * k);
  }

  // ---------------------------------------------------------------- the residue

  lemma {:induction false} FromRegBits(c: bv32, n: nat)
    ensures BitsOf(FromReg(c, n), n) == RegBits(c, n)
  {
    if n > 0 {
      hide Half;
      assert FromReg(c, n) / 2 == FromReg(Half(c), n - 1);
      FromRegBits(Half(c), n - 1);
    }
  }

  /** The n lowest bits of the register, lowest first. */
  function RegBits(c: bv32, n: nat): (bits: seq<bool>)
    ensures |bits| == n
  {
    if n == 0 then [] else [c & 1 == 1] + RegBits(Half(c), n - 1)
  }

  lemma {:induction false} RegBitsAppend(c: bv32, m: nat, n: nat, d: bv32)
    requires d == Down(c, m)
    ensures RegBits(c, m + n) == RegBits(c, m) + RegBits(d, n)
    decreases m
  {
    if m > 0 {
      RegBitsAppend(Half(c), m - 1, n, d);
    }
  }

  /** The register with its n lowest bits dropped. */
  function Down(c: bv32, n: nat): bv32 {
    if n == 0 then c else Down(Half(c), n - 1)
  }

  lemma {:induction false} RegBitsValue(c: bv32, n: nat)
    requires n <= 32 && Down(c, n) == 0
    ensures Value(RegBits(c, n)) == c
    decreases n
  {
    hide Join, Half;
    if n > 0 {
      RegBitsValue(Half(c), n - 1);
      JoinHalf(c, Half(c));
    }
  }

  lemma JoinHalf(f: bv32, h: bv32)
    requires h == Half(f)
    ensures Join(f & 1 == 1, h) == f
  {
    LowBit(f);
  }

  function ByteDown(c: bv32): bv32 { c >> 8 }

  lemma HalfTimes8(c: bv32)
    ensures Half(Half(Half(Half(Half(Half(Half(Half(c)))))))) == ByteDown(c)
  {
  }

  lemma DownEight(c: bv32, n: nat)
    ensures Down(c, n + 8) == Down(ByteDown(c), n)
  {
    hide Half, ByteDown;
    HalfTimes8(c);
    var c1 := Half(c);
    var c2 := Half(c1);
    var c3 := Half(c2);
    var c4 := Half(c3);
    var c5 := Half(c4);
    var c6 := Half(c5);
    var c7 := Half(c6);
    assert Down(c, n + 8) == Down(c1, n + 7) == Down(c2, n + 6) == Down(c3, n + 5) == Down(c4, n + 4);
    assert Down(c4, n + 4) == Down(c5, n + 3) == Down(c6, n + 2) == Down(c7, n + 1) == Down(Half(c7), n);
  }

  lemma ShrBytes(c: bv32)
    ensures c >> 8 == ByteDown(c)
    ensures c >> 16 == ByteDown(ByteDown(c))
    ensures c >> 24 == ByteDown(ByteDown(ByteDown(c)))
    ensures 0 == ByteDown(ByteDown(ByteDown(ByteDown(c))))
  {
  }

  lemma DownAll(c: bv32)
    ensures Down(c, 32) == 0
  {
    hide ByteDown;
    ShrBytes(c);
    DownEight(c, 24);
    DownEight(ByteDown(c), 16);
    DownEight(ByteDown(ByteDown(c)), 8);
    DownEight(ByteDown(ByteDown(ByteDown(c))), 0);
    assert Down(0, 0) == 0;
  }

  lemma RegBytes(f0: bv32, f1: bv32, f2: bv32, f3: bv32)
    requires f1 == ByteDown(f0) && f2 == ByteDown(f1) && f3 == ByteDown(f2)
    ensures RegBits(f0, 32) == RegBits(f0, 8) + (RegBits(f1, 8) + (RegBits(f2, 8) + RegBits(f3, 8)))
  {
    hide RegBits, ByteDown, Half;
    DownEight(f0, 0);
    DownEight(f1, 0);
    DownEight(f2, 0);
    assert Down(f1, 0) == f1 && Down(f2, 0) == f2 && Down(f3, 0) == f3;
    RegBitsAppend(f0, 8, 24, f1);
    RegBitsAppend(f1, 8, 16, f2);
    RegBitsAppend(f2, 8, 8, f3);
  }

  /** The four check bytes are the complemented register, bit for bit. */
  lemma FcsBits(c: bv32)
    ensures Value(Bits(FcsBytes(c))) == c ^ 0xFFFF_FFFF
  {
    LowFirstValue(c ^ 0xFFFF_FFFF);
  }

  lemma LowFirstValue(f: bv32)
    ensures Value(Bits(LowFirst(f))) == f
  {
    hide LowByte, Value, Bits;
    FcsBytesBits(f, f >> 8, f >> 16, f >> 24);
  }

  lemma FcsBytesBits(f0: bv32, f1: bv32, f2: bv32, f3: bv32)
    requires f1 == f0 >> 8 && f2 == f0 >> 16 && f3 == f0 >> 24
    ensures Value(Bits([LowByte(f0), LowByte(f1), LowByte(f2), LowByte(f3)])) == f0
  {
    hide Value, Down, BitsOf, RegBits, FromReg, Bits, ByteDown, LowByte;
    ShrBytes(f0);
    FcsByteBits(f0, f1, f2, f3);
    RegBytes(f0, f1, f2, f3);
    DownAll(f0);
    RegBitsValue(f0, 32);
  }

  lemma FcsByteBits(f0: bv32, f1: bv32, f2: bv32, f3: bv32)
    ensures Bits([LowByte(f0), LowByte(f1), LowByte(f2), LowByte(f3)])
         == RegBits(f0, 8) + (RegBits(f1, 8) + (RegBits(f2, 8) + RegBits(f3, 8)))
  {
    hide BitsOf, RegBits, FromReg, Bits;
    FromRegBits(f0, 8);
    FromRegBits(f1, 8);
    FromRegBits(f2, 8);
    FromRegBits(f3, 8);
    FourBytes(LowByte(f0), LowByte(f1), LowByte(f2), LowByte(f3));
  }

  lemma FourBytes(a: byte, b: byte, c: byte, d: byte)
    ensures Bits([a, b, c, d]) == BitsOf(a, 8) + (BitsOf(b, 8) + (BitsOf(c, 8) + BitsOf(d, 8)))
  {
    hide BitsOf;
    assert [a, b, c, d][1..] == [b, c, d];
    assert [b, c, d][1..] == [c, d];
    assert [c, d][1..] == [d];
    assert Bits([d]) == BitsOf(d, 8) + [];
    assert BitsOf(d, 8) + [] == BitsOf(d, 8);
    assert Bits([c, d]) == BitsOf(c, 8) + Bits([d]);
    assert Bits([b, c, d]) == BitsOf(b, 8) + Bits([c, d]);
  }

  /** Eight turns of the loop. */
  function Turn8(c: bv32): bv32 {
    BitStep(BitStep(BitStep(BitStep(BitStep(BitStep(BitStep(BitStep(c))))))))
  }

  lemma ShiftEight(n: nat, c: bv32)
    ensures Shift(n + 8, c) == Shift(n, Turn8(c))
  {
    hide BitStep;
    var c1 := BitStep(c);
    var c2 := BitStep(c1);
    var c3 := BitStep(c2);
    var c4 := BitStep(c3);
    var c5 := BitStep(c4);
    var c6 := BitStep(c5);
    var c7 := BitStep(c6);
    assert Shift(n + 8, c) == Shift(n + 7, c1) == Shift(n + 6, c2) == Shift(n + 5, c3) == Shift(n + 4, c4);
    assert Shift(n + 4, c4) == Shift(n + 3, c5) == Shift(n + 2, c6) == Shift(n + 1, c7) == Shift(n, BitStep(c7));
  }

  lemma Turns()
    ensures Turn8(0xFFFF_FFFF) == 0x2dfd1072
    ensures Turn8(0x2dfd1072) == 0xbe26ed00
    ensures Turn8(0xbe26ed00) == 0xbe26ed
    ensures Turn8(0xbe26ed) == RESIDUE
  {
  }

  lemma ResidueValue()
    ensures Shift(32, 0xFFFF_FFFF) == RESIDUE
  {
    hide Turn8, BitStep;
    Turns();
    ShiftEight(24, 0xFFFF_FFFF);
    ShiftEight(16, 0x2dfd1072);
    ShiftEight(8, 0xbe26ed00);
    ShiftEight(0, 0xbe26ed);
  }

  /** Four more bytes bring the register to the residue exactly when they are the check sequence of what went before. */
  lemma ResidueIffFcs(c: bv32, s: seq<byte>, tail: seq<byte>)
    requires |tail| == 4
    ensures Run(c, s + tail) == RESIDUE <==> tail == FcsBytes(Run(c, s))
  {
    hide Bits, Value, Shift, FcsBytes, ByteStep, Xor;
    var r := Run(c, s);
    RunAppend(c, s, tail);
    TailShift(r, tail);
    TailShift(r, FcsBytes(r));
    FcsBits(r);
    XorComplement(r);
    ResidueValue();
    if Run(c, s + tail) == RESIDUE {
      ShiftInjective(32, Xor(r, Value(Bits(tail))), Xor(r, Value(Bits(FcsBytes(r)))));
      XorInjective(r, Value(Bits(tail)), Value(Bits(FcsBytes(r))));
      ValueInjective(Bits(tail), Bits(FcsBytes(r)));
      BitsInjective(tail, FcsBytes(r));
    }
  }

  lemma TailShift(r: bv32, tail: seq<byte>)
    requires |tail| == 4
    ensures Run(r, tail) == Shift(32, Xor(r, Value(Bits(tail))))
  {
    hide Run, Shift, Xor, Value, Bits, Serial;
    RunIsSerial(r, tail);
    SerialIsShift(r, Bits(tail));
  }

  lemma XorComplement(r: bv32)
    ensures Xor(r, r ^ 0xFFFF_FFFF) == 0xFFFF_FFFF
  {
  }
}
