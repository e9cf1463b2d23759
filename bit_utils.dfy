/**
 * src/Bite/BitUtils.cs: the mask table used by reader and writer, the byte
 * bit-reversal, and the expansion of a byte array into a `BitArray`.
 */
module BitUtils {
  import opened Machine
  import opened Order
  import opened BitFields
  import opened BitOrderExtensions
  import opened BitStream

  /** 2^k - 1: the k low bits set. */
  function Mask(k: nat): nat
  {
    Pow2(k) - 1
  }

  /**
   * `CreateMaskTable`: 33 entries, entry k keeping the k low bits. Entries
   * 1..31 are computed as `(uint)((1 << i) - 1)` in `int` arithmetic, which
   * wraps at i = 31; entry 0 keeps its default 0 and entry 32 is set to
   * `uint.MaxValue` outright.
   */
  method CreateMaskTable() returns (masks: array<uint32>)
    ensures fresh(masks) && masks.Length == 33
    ensures forall k :: 0 <= k < 33 ==> masks[k] == Mask(k)
  {
    masks := new uint32[33](_ => 0);
    var i := 1;
    while i < masks.Length - 1
      invariant 1 <= i <= 32
      invariant forall k :: 0 <= k < i ==> masks[k] == Mask(k)
    {
      var num := UInt32(Int32(Int32(Pow2(i)) - 1));
      assert num == Mask(i) by { MaskEntry(i); }
      masks[i] := num;
      i := i + 1;
    }
    masks[32] := 0xFFFF_FFFF;
    assert Mask(32) == 0xFFFF_FFFF by { Pow2Values(); }
  }

  /** `(uint)((1 << i) - 1)` in wrapping `int` arithmetic is 2^i - 1, even at i = 31. */
  lemma MaskEntry(i: nat)
    requires 1 <= i <= 31
    ensures UInt32(Int32(Int32(Pow2(i)) - 1)) == Mask(i)
  {
    var p := Pow2(i);
    assert p <= 0x8000_0000 by { Pow2Monotone(i, 31); Pow2Values(); }
    if p < 0x8000_0000 {
      Int32OfSmall(p);
      Int32OfSmall(p - 1);
    } else {
      assert Int32(p) == -0x8000_0000;
      assert Int32(-0x8000_0000 - 1) == 0x7FFF_FFFF;
    }
  }

  lemma Int32OfSmall(x: int)
    requires -0x8000_0000 <= x < 0x8000_0000
    ensures Int32(x) == x
  {
    LowBitsOfSmallValue(x + 0x8000_0000, UINT32_LIMIT);
  }

  /**
   * `ReverseBits`: the byte with its bits in the opposite order, computed as
   * the C# code does it: the byte widened to a 32-bit word, three
   * multiplications and masks, a shift by 16 and a truncation back to a byte.
   */
  function ReverseBits(value: byte): (r: byte)
    ensures forall p :: 0 <= p < 8 ==> GetBit(Lsb0, r, p) == GetBit(Msb0, value, p)
  {
    MirroredByte(value, ReverseWord(value as bv8) as nat);
    ReverseWord(value as bv8) as nat
  }

  /** The byte computed by `ReverseWord` holds, at bit p, bit 7 - p of its input. */
  lemma MirroredByte(value: byte, x: byte)
    requires x == ReverseWord(value as bv8) as nat
    ensures forall p :: 0 <= p < 8 ==> GetBit(Lsb0, x, p) == GetBit(Msb0, value, p)
  {
    ByteOfSmall(value);
    forall p | 0 <= p < 8
      ensures GetBit(Lsb0, x, p) == GetBit(Msb0, value, p)
    {
      ReversedWordBit(value as bv8, p);
    }
  }

  /** The 32-bit computation of `ReverseBits` on the byte `b`. */
  function ReverseWord(b: bv8): bv8
  {
    var v := b as bv32;
    ((((((v * 0x0802) & 0x22110) | ((v * 0x8020) & 0x88440)) * 0x10101) >> 16) & 0xFF) as bv8
  }

  /** Bit p of the computed byte is bit 7 - p of its input. */
  lemma ReverseWordBits(b: bv8, p: nat)
    requires p < 8
    ensures (ReverseWord(b) & (1 << p) != 0) == (b & (1 << (7 - p)) != 0)
  {
  }

  lemma ReverseWordTwice(b: bv8)
    ensures ReverseWord(ReverseWord(b)) == b
  {
  }

  /** Reversing twice gives the byte back. */
  lemma ReverseBitsInvolution(value: byte)
    ensures ReverseBits(ReverseBits(value)) == value
  {
    var b := value as bv8;
    ByteOfSmall(value);
    var r := ReverseWord(b);
    assert (r as nat) as bv8 == r;
    ReverseWordTwice(b);
  }

  /** Read Lsb0, the reversed byte yields the bits of the original read Msb0. */
  lemma ReverseBitsReadsMsb0(value: byte)
    ensures ByteBits(ReverseBits(value), Lsb0) == ByteBits(value, Msb0)
  {
    var x := ReverseBits(value);
    forall p | 0 <= p < 8
      ensures ToBits(Lsb0, 8, x)[p] == ToBits(Msb0, 8, value)[p]
    {
      ReversedBit(value, p);
      PatternBits(x, value, p);
    }
  }

  /** Bit p of the reversed byte is bit 7 - p of the byte. */
  lemma ReversedBit(value: byte, p: nat)
    requires p < 8
    ensures ((ReverseBits(value) / Pow2(p)) % 2 == 1) == ((value / Pow2(7 - p)) % 2 == 1)
  {
    ByteOfSmall(value);
    ReversedWordBit(value as bv8, p);
  }

  lemma ReversedWordBit(b: bv8, p: nat)
    requires p < 8
    ensures ((ReverseWord(b) as nat / Pow2(p)) % 2 == 1) == ((b as nat / Pow2(7 - p)) % 2 == 1)
  {
    ReverseWordBits(b, p);
    MirrorBit(b, ReverseWord(b), p);
  }

  lemma MirrorBit(b: bv8, r: bv8, p: nat)
    requires p < 8
    requires (r & (1 << p) != 0) == (b & (1 << (7 - p)) != 0)
    ensures ((r as nat / Pow2(p)) % 2 == 1) == ((b as nat / Pow2(7 - p)) % 2 == 1)
  {
    BitOfByte(r, p);
    BitOfByte(b, 7 - p);
  }

  lemma PatternBits(x: nat, y: nat, p: nat)
    requires p < 8
    ensures ToBits(Lsb0, 8, x)[p] == ((x / Pow2(p)) % 2 == 1)
    ensures ToBits(Msb0, 8, y)[p] == ((y / Pow2(7 - p)) % 2 == 1)
  {
    ToBitsLsb0At(8, x, p);
    ToBitsMsb0At(8, y, p);
  }

  /** A number below 256 survives the round trip through a `bv8`. */
  lemma ByteOfSmall(x: byte)
    ensures (x as bv8) as nat == x
  {
    var b := CountUp(x);
    assert (b as nat) as bv8 == b;
  }

  /** The `bv8` of value x, reached by adding 1 to zero x times. */
  ghost function CountUp(x: byte): (b: bv8)
    ensures b as nat == x
  {
    if x == 0 then 0 else CountUp(x - 1) + 1
  }

  /** `b & (1 << p)` tests the bit of weight 2^p. */
  lemma {:induction false} BitOfByte(b: bv8, p: nat)
    requires p < 8
    ensures (b & (1 << p) != 0) == ((b as nat / Pow2(p)) % 2 == 1)
    decreases p
  {
    if p == 0 {
      LowBitOfByte(b);
    } else {
      BitOfByte(b >> 1, p - 1);
      HalfOfByte(b);
      ShiftedTest(b, p);
      DivDiv(b as nat, 2, Pow2(p - 1));
    }
  }

  lemma LowBitOfByte(b: bv8)
    ensures (b & 1 != 0) == ((b as nat) % 2 == 1)
  {
  }

  lemma HalfOfByte(b: bv8)
    ensures (b >> 1) as nat == (b as nat) / 2
  {
  }

  lemma ShiftedTest(b: bv8, p: nat)
    requires 1 <= p < 8
    ensures (b & (1 << p) != 0) == ((b >> 1) & (1 << (p - 1)) != 0)
  {
  }

  function MapReverseBits(bs: seq<byte>): (r: seq<byte>)
    ensures |r| == |bs| && forall i :: 0 <= i < |bs| ==> r[i] == ReverseBits(bs[i])
  {
    seq(|bs|, i requires 0 <= i < |bs| => ReverseBits(bs[i]))
  }

  /** Bit-reversing every byte turns the Msb0 stream into the Lsb0 stream. */
  lemma {:induction false} StreamOfReversed(bs: seq<byte>)
    ensures Stream(MapReverseBits(bs), Lsb0) == Stream(bs, Msb0)
  {
    if bs != [] {
      StreamOfReversed(bs[1..]);
      assert MapReverseBits(bs)[1..] == MapReverseBits(bs[1..]);
      ReverseBitsReadsMsb0(bs[0]);
    }
  }

  /**
   * `new BitArray(byte[])`: bit i is bit i % 8 of byte i / 8, least significant
   * first. `BitArray` itself is not part of this model; its contents are.
   */
  function BitArrayOf(bytes: seq<byte>): (r: seq<bool>)
    ensures |r| == 8 * |bytes|
  {
    Stream(bytes, Lsb0)
  }

  /**
   * `CreateBitArray`: the bits of the array in the requested order. For Msb0
   * each byte is bit-reversed into a fresh array first; the input is not written.
   */
  method CreateBitArray(bytes: array<byte>, order: BitOrder) returns (bits: seq<bool>)
    ensures bits == Stream(bytes[..], order)
    ensures |bits| == 8 * bytes.Length
  {
    if order == Msb0 {
      var reversed := new byte[bytes.Length];
      for i := 0 to bytes.Length
        invariant forall k :: 0 <= k < i ==> reversed[k] == ReverseBits(bytes[k])
      {
        reversed[i] := ReverseBits(bytes[i]);
      }
      assert reversed[..] == MapReverseBits(bytes[..]);
      StreamOfReversed(bytes[..]);
      return BitArrayOf(reversed[..]);
    } else {
      return BitArrayOf(bytes[..]);
    }
  }

  // ---------------------------------------------------------------------------
  // Splitting the accumulator around a bit position

  /**
   * Taking the top n bits of an accumulator that holds n + m: with
   * buffer = hi * 2^m + lo, hi < 2^n and lo < 2^m, `(uint)(buffer >> m)` is hi
   * and `buffer & masks[m]` is lo.
   */
  lemma HighAndLow(buffer: nat, n: nat, m: nat, hi: nat, lo: nat)
    requires n <= 32 && hi < Pow2(n) && lo < Pow2(m) && buffer == hi * Pow2(m) + lo
    ensures UInt32(Shr(buffer, m)) == hi && And(buffer, Mask(m)) == lo
  {
    assert Shr(buffer, m) == hi by {
      DivModOfMulAdd(hi, Pow2(m), lo);
      ShrIsDiv(buffer, m);
    }
    assert And(buffer, Mask(m)) == lo by {
      DivModOfMulAdd(hi, Pow2(m), lo);
      AndLowMask(buffer, m);
    }
    FitsInWord(hi, n);
  }

  /**
   * Taking the bottom n bits: with buffer = lo + hi * 2^n and lo < 2^n,
   * `(uint)buffer & masks[n]` is lo and `buffer >> n` is hi.
   */
  lemma LowAndHigh(buffer: nat, n: nat, lo: nat, hi: nat)
    requires n <= 32 && lo < Pow2(n) && buffer == lo + hi * Pow2(n)
    ensures And(UInt32(buffer), Mask(n)) == lo < UINT32_LIMIT && Shr(buffer, n) == hi
  {
    assert Shr(buffer, n) == hi by {
      DivModOfMulAdd(hi, Pow2(n), lo);
      ShrIsDiv(buffer, n);
    }
    assert And(UInt32(buffer), Mask(n)) == lo by {
      DivModOfMulAdd(hi, Pow2(n), lo);
      MaskWord(buffer, n);
    }
    FitsInWord(lo, n);
  }

  /** A value below 2^k is unchanged by `& masks[k]`. */
  lemma MaskOfSmall(x: nat, k: nat)
    requires x < Pow2(k)
    ensures And(x, Mask(k)) == x
  {
    AndLowMask(x, k);
    LowBitsOfSmall(x, k);
  }

  /** `(uint)x & masks[n]` keeps the n low bits of x, n <= 32. */
  lemma MaskWord(x: nat, n: nat)
    requires n <= 32
    ensures And(UInt32(x), Mask(n)) == x % Pow2(n)
  {
    LowBitsOfWord(x, n);
    AndLowMask(UInt32(x), n);
  }

  /** A value below 2^n, n <= 32, is its own low 32 bits. */
  lemma FitsInWord(x: nat, n: nat)
    requires x < Pow2(n) && n <= 32
    ensures UInt32(x) == x
  {
    Pow2Monotone(n, 32);
    Pow2Word();
  }

  /** The low n bits of the low 32 bits are the low n bits, n <= 32. */
  lemma LowBitsOfWord(x: nat, n: nat)
    requires n <= 32
    ensures UInt32(x) % Pow2(n) == x % Pow2(n)
  {
    Pow2Word();
    LowBitsOfLowBits(x, n, 32);
  }
}
