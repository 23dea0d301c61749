/** Writing byte strings into the shared word buffer, as every frame builder does. */
module Store {
  import opened Bytes

  /** A memory with the words ws written from address base on. */
  function Stored(mem: seq<word>, base: nat, ws: seq<word>): (r: seq<word>)
    requires base + |ws| <= |mem|
    ensures |r| == |mem|
  {
    mem[..base] + ws + mem[base + |ws|..]
  }

  /** The first 4n bytes of an array as n big-endian words. */
  function WordsOf(b: seq<byte>, n: nat): (ws: seq<word>)
    requires 4 * n <= |b|
    ensures |ws| == n
  {
    seq(n, i requires 0 <= i < n => WordOf(b[4 * i], b[4 * i + 1], b[4 * i + 2], b[4 * i + 3]))
  }

  /** The packing loop of the builders. */
  method StoreBytes(mem: array<word>, base: nat, b: array<byte>, n: nat)
    requires 4 * n <= b.Length && base + n <= mem.Length
    modifies mem
    ensures mem[..] == Stored(old(mem[..]), base, WordsOf(b[..], n))
  {
    hide WordOf;
    ghost var ws := WordsOf(b[..], n);
    for i := 0 to n
      invariant mem[..] == Stored(old(mem[..]), base, ws[..i])
    {
      mem[base + i] := WordOf(b[4 * i], b[4 * i + 1], b[4 * i + 2], b[4 * i + 3]);
      assert mem[base + i] == ws[i];
    }
    assert ws[..n] == ws;
  }

  /** Reading back the bytes that were stored. */
  lemma ReadStored(mem: seq<word>, base: nat, b: seq<byte>, n: nat, len: nat)
    requires 4 * n <= |b| && base + n <= |mem| && len <= 4 * n
    ensures ReadBytes(Stored(mem, base, WordsOf(b, n)), base, len) == b[..len]
  {
    var m := Stored(mem, base, WordsOf(b, n));
    forall i | 0 <= i < len ensures MemByte(m, 4 * base + i) == b[i] {
      var q := i / 4;
      assert m[base + q] == WordsOf(b, n)[q];
      ByteOfWordOf(b[4 * q], b[4 * q + 1], b[4 * q + 2], b[4 * q + 3]);
      hide ByteOf, WordOf;
    }
  }

  /** Reading a region a store does not touch. */
  lemma ReadApart(mem: seq<word>, base: nat, ws: seq<word>, from: nat, len: nat)
    requires base + |ws| <= |mem| && 4 * from + len <= 4 * |mem|
    requires from >= base + |ws| || from + (len + 3) / 4 <= base
    ensures ReadBytes(Stored(mem, base, ws), from, len) == ReadBytes(mem, from, len)
  {
    hide ByteOf;
    var a, b := ReadBytes(Stored(mem, base, ws), from, len), ReadBytes(mem, from, len);
    forall i | 0 <= i < len ensures a[i] == b[i] {
    }
  }

  /** Reading only depends on the words read. */
  lemma ReadSame(m1: seq<word>, m2: seq<word>, from: nat, len: nat)
    requires |m1| == |m2| && 4 * from + len <= 4 * |m1|
    requires forall j :: from <= j < from + (len + 3) / 4 && j < |m1| ==> m1[j] == m2[j]
    ensures ReadBytes(m1, from, len) == ReadBytes(m2, from, len)
  {
    hide ByteOf;
    var a, b := ReadBytes(m1, from, len), ReadBytes(m2, from, len);
    forall i | 0 <= i < len ensures a[i] == b[i] {
    }
  }
}
