/**
 * Byte order of 32-bit words, as `BinaryPrimitives` provides it to the codec:
 * `ReadUInt32LittleEndian`, `WriteUInt32LittleEndian` and `ReverseEndianness`.
 * Bytes and words are natural numbers.
 */
module Endian {
  import opened Machine

  /** The value of a run of bytes with byte 0 least significant. */
  function LittleEndian(bs: seq<byte>): (r: nat)
    ensures r < Pow2(8 * |bs|)
  {
    if bs == [] then 0
    else
      var rest := LittleEndian(bs[1..]);
      Pow2Plus8(8 * (|bs| - 1));
      bs[0] + 256 * rest
  }

  /** The value of a run of bytes with byte 0 most significant. */
  function BigEndian(bs: seq<byte>): (r: nat)
    ensures r < Pow2(8 * |bs|)
  {
    if bs == [] then 0
    else
      var rest := BigEndian(bs[..|bs| - 1]);
      Pow2Plus8(8 * (|bs| - 1));
      256 * rest + bs[|bs| - 1]
  }

  /** The c low bytes of v, least significant first. */
  function LeBytes(v: nat, c: nat): (r: seq<byte>)
    ensures |r| == c
  {
    if c == 0 then [] else [v % 256] + LeBytes(v / 256, c - 1)
  }

  function Reverse<T>(s: seq<T>): (r: seq<T>)
    ensures |r| == |s|
    ensures forall i :: 0 <= i < |s| ==> r[i] == s[|s| - 1 - i]
  {
    if s == [] then [] else [s[|s| - 1]] + Reverse(s[..|s| - 1])
  }

  function Zeros(n: nat): (r: seq<byte>)
    ensures |r| == n && forall i :: 0 <= i < n ==> r[i] == 0
  {
    seq(n, _ => 0)
  }

  /** `BinaryPrimitives.ReverseEndianness(uint)`: the four bytes of v in the opposite order. */
  function ReverseEndianness(v: uint32): (r: uint32)
    ensures LeBytes(r, 4) == Reverse(LeBytes(v, 4))
  {
    var bytes := Reverse(LeBytes(v, 4));
    LeBytesOfLittleEndian(bytes);
    Pow2Values();
    LittleEndian(bytes)
  }

  // ---------------------------------------------------------------------------
  // Lemmas

  /** Writing the c low bytes of v and reading them back gives v mod 2^(8c). */
  lemma {:induction false} LittleEndianOfLeBytes(v: nat, c: nat)
    ensures LittleEndian(LeBytes(v, c)) == v % Pow2(8 * c)
  {
    if c > 0 {
      var bs := LeBytes(v, c);
      var p := Pow2(8 * (c - 1));
      LittleEndianOfLeBytes(v / 256, c - 1);
      assert bs[1..] == LeBytes(v / 256, c - 1);
      assert LittleEndian(bs) == v % 256 + 256 * ((v / 256) % p);
      Pow2Plus8(8 * (c - 1));
      assert Pow2(8 * c) == 256 * p;
      ModMulSplit(v, 256, p);
    }
  }

  /** A run of bytes is the little-endian encoding of its value. */
  lemma {:induction false} LeBytesOfLittleEndian(bs: seq<byte>)
    ensures LeBytes(LittleEndian(bs), |bs|) == bs
  {
    if bs != [] {
      var v := LittleEndian(bs);
      LeBytesOfLittleEndian(bs[1..]);
      DivModOfMulAdd(LittleEndian(bs[1..]), 256, bs[0]);
      assert v % 256 == bs[0];
      assert bs == [bs[0]] + bs[1..];
    }
  }

  /** Two runs of the same length with the same little-endian value are equal. */
  lemma LittleEndianInjective(a: seq<byte>, b: seq<byte>)
    requires |a| == |b| && LittleEndian(a) == LittleEndian(b)
    ensures a == b
  {
    LeBytesOfLittleEndian(a);
    LeBytesOfLittleEndian(b);
  }

  lemma {:induction false} LeBytesPrefix(v: nat, c: nat, k: nat)
    requires k <= c
    ensures LeBytes(v, c)[..k] == LeBytes(v, k)
  {
    if k > 0 {
      LeBytesPrefix(v / 256, c - 1, k - 1);
      assert LeBytes(v, c)[..k] == [v % 256] + LeBytes(v / 256, c - 1)[..k - 1];
    }
  }

  /** Appending bytes adds their value at the next byte weight. */
  lemma {:induction false} LittleEndianAppend(a: seq<byte>, b: seq<byte>)
    ensures LittleEndian(a + b) == LittleEndian(a) + Pow2(8 * |a|) * LittleEndian(b)
  {
    if a != [] {
      var p, q := Pow2(8 * (|a| - 1)), Pow2(8 * |a|);
      var low, tail, high := a[0], LittleEndian(a[1..]), LittleEndian(b);
      LittleEndianAppend(a[1..], b);
      assert (a + b)[1..] == a[1..] + b && (a + b)[0] == a[0];
      Pow2Plus8(8 * (|a| - 1));
      ScaleByByte(low, tail, p, high, q, LittleEndian(a + b), LittleEndian(a));
    } else {
      assert a + b == b;
      assert Pow2(8 * |a|) == 1;
    }
  }

  lemma ScaleByByte(low: nat, tail: nat, p: nat, high: nat, q: nat, whole: nat, part: nat)
    requires q == 256 * p
    requires whole == low + 256 * (tail + p * high) && part == low + 256 * tail
    ensures whole == part + q * high
  {
  }

  lemma {:induction false} LittleEndianOfZeros(n: nat)
    ensures LittleEndian(Zeros(n)) == 0
  {
    if n > 0 {
      LittleEndianOfZeros(n - 1);
      assert Zeros(n)[1..] == Zeros(n - 1);
    }
  }

  /** Reading the reversed run little-endian reads the run big-endian. */
  lemma {:induction false} LittleEndianOfReverse(bs: seq<byte>)
    ensures LittleEndian(Reverse(bs)) == BigEndian(bs)
  {
    if bs != [] {
      LittleEndianOfReverse(bs[..|bs| - 1]);
      assert Reverse(bs)[1..] == Reverse(bs[..|bs| - 1]);
    }
  }

  lemma ReverseReverse<T>(s: seq<T>)
    ensures Reverse(Reverse(s)) == s
  {
  }

  lemma ReverseAppend<T>(a: seq<T>, b: seq<T>)
    ensures Reverse(a + b) == Reverse(b) + Reverse(a)
  {
  }

  /** Reading the run big-endian reads the reversed run little-endian. */
  lemma BigEndianOfReverse(bs: seq<byte>)
    ensures BigEndian(Reverse(bs)) == LittleEndian(bs)
  {
    LittleEndianOfReverse(Reverse(bs));
    ReverseReverse(bs);
  }

  /** Two runs of the same length with the same big-endian value are equal. */
  lemma BigEndianInjective(a: seq<byte>, b: seq<byte>)
    requires |a| == |b| && BigEndian(a) == BigEndian(b)
    ensures a == b
  {
    LittleEndianOfReverse(a);
    LittleEndianOfReverse(b);
    LittleEndianInjective(Reverse(a), Reverse(b));
    ReverseReverse(a);
    ReverseReverse(b);
  }

  /** Byte-reversing a word read from four bytes reads the four bytes reversed. */
  lemma ReverseEndiannessOfWord(p: seq<byte>)
    requires |p| == 4
    ensures LittleEndian(p) < UINT32_LIMIT
    ensures ReverseEndianness(LittleEndian(p)) == LittleEndian(Reverse(p))
  {
    Pow2Values();
    var v := LittleEndian(p);
    LeBytesOfLittleEndian(p);
    var r := ReverseEndianness(v);
    LittleEndianOfLeBytes(r, 4);
    LowBitsOfSmall(r, 32);
  }
}
