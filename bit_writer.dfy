/**
 * src/Bite/BitWriter.cs: writes fields of up to 32 bits to a byte sink,
 * through a 64-bit accumulator that is drained four bytes at a time.
 *
 * `Bits()` is everything written so far, in write order: the stream of the
 * bytes handed to the sink followed by the bits still in the accumulator.
 * Every operation is specified by what it appends to `Bits()`.
 *
 * Under Msb0 the C# code drains the low 32 bits of the accumulator, which are
 * the newest bits rather than the oldest; `WriteBits` is the corrected
 * writer, which drains the top 32, and `WriteBitsAsWritten` is the C# code's
 * own, proved right only where the two agree.
 */
module Writer {
  import opened Machine
  import opened Order
  import opened BitFields
  import opened BitOrderExtensions
  import opened BitStream
  import opened BitUtils

  class BitWriter {
    const order: BitOrder
    /** What has been handed to the `IBufferWriter`. */
    var sink: seq<byte>
    /** The `ulong` accumulator and the number of bits in it. */
    var buffer: nat
    var bitsInBuffer: nat
    var writtenBytes: nat

    /** The state between calls: at most 31 bits buffered, and nothing above them. */
    predicate Valid()
      reads this`sink, this`buffer, this`bitsInBuffer, this`writtenBytes
    {
      |sink| == writtenBytes && bitsInBuffer <= 31 && buffer < Pow2(bitsInBuffer)
    }

    /** Every bit written so far, in write order. */
    function Bits(): seq<bool>
      reads this`sink, this`buffer, this`bitsInBuffer
    {
      Stream(sink, order) + ToBits(order, bitsInBuffer, buffer)
    }

    /** `WrittenBitCount`: the number of bits written so far. */
    function WrittenBitCount(): (r: nat)
      reads this`sink, this`buffer, this`bitsInBuffer, this`writtenBytes
      ensures |sink| == writtenBytes ==> r == |Bits()|
    {
      8 * writtenBytes + bitsInBuffer
    }

    /** The writer over an empty sink. */
    constructor (bitOrder: BitOrder)
      ensures Valid() && order == bitOrder
      ensures sink == [] && buffer == 0 && bitsInBuffer == 0 && writtenBytes == 0
      ensures Bits() == []
    {
      order := bitOrder;
      sink := [];
      buffer, bitsInBuffer := 0, 0;
      writtenBytes := 0;
    }

    /** `Emit`: the `byteCount` low bytes of `value`, in the writer's byte order, go to the sink. */
    method Emit(value: uint32, byteCount: nat)
      requires byteCount <= 4 && |sink| == writtenBytes
      modifies this`sink, this`writtenBytes
      ensures |sink| == writtenBytes
      ensures sink == old(sink) + Write(order, value, byteCount)
      ensures Stream(sink, order) == old(Stream(sink, order)) + ToBits(order, 8 * byteCount, value)
    {
      var bytes := Write(order, value, byteCount);
      StreamAppend(sink, bytes, order);
      StreamOfWrite(order, value, byteCount);
      sink := sink + bytes;
      writtenBytes := writtenBytes + byteCount;
    }

    /**
     * `WriteBits`, with the Msb0 drain corrected: the n low bits of `value`
     * are appended. A whole word on an empty accumulator goes straight to
     * the sink; otherwise it is masked, merged and, once 32 bits are
     * buffered, the oldest 32 are emitted.
     */
    method WriteBits(bitCount: nat, value: uint32)
      requires Valid() && bitCount <= 32
      modifies this
      ensures Valid()
      ensures Bits() == old(Bits()) + ToBits(order, bitCount, value)
      ensures bitsInBuffer == (old(bitsInBuffer) + bitCount) % 32
      ensures WrittenBitCount() == old(WrittenBitCount()) + bitCount
      ensures old(sink) <= sink
    {
      if bitCount == 32 && bitsInBuffer == 0 {
        ghost var before := Stream(sink, order);
        Emit(value, 4);
        EmptyBuffer(order, before, Stream(sink, order), buffer);
        return;
      }
      Accumulate(bitCount, value);
      Drain();
    }

    /**
     * The general path of `WriteBits` up to the drain: `value &= masks[n]`,
     * then the merge below (Msb0) or above (Lsb0) the buffered bits.
     */
    method Accumulate(bitCount: nat, value: uint32)
      requires Valid() && bitCount <= 32
      modifies this`buffer, this`bitsInBuffer
      ensures bitsInBuffer == old(bitsInBuffer) + bitCount && buffer < Pow2(bitsInBuffer)
      ensures buffer == Merge(order, old(buffer), old(bitsInBuffer), bitCount, And(value, Mask(bitCount)))
      ensures Bits() == old(Bits()) + ToBits(order, bitCount, value)
    {
      var masked := And(value, Mask(bitCount));
      AccumulateStep(order, buffer, bitsInBuffer, bitCount, value);
      buffer := Merge(order, buffer, bitsInBuffer, bitCount, masked);
      bitsInBuffer := bitsInBuffer + bitCount;
    }

    /**
     * The drain of `WriteBits`, corrected: once 32 or more bits are buffered
     * the oldest 32 go to the sink. Those are the top 32 under Msb0,
     * `(uint)(buffer >> rest)` with `buffer & masks[rest]` kept, and the
     * bottom 32 under Lsb0, `(uint)buffer` with `buffer >> 32` kept.
     */
    method Drain()
      requires |sink| == writtenBytes && bitsInBuffer < 64 && buffer < Pow2(bitsInBuffer)
      modifies this`sink, this`writtenBytes, this`buffer, this`bitsInBuffer
      ensures Valid() && Bits() == old(Bits())
      ensures bitsInBuffer == old(bitsInBuffer) % 32
      ensures WrittenBitCount() == old(WrittenBitCount())
      ensures old(sink) <= sink
    {
      if bitsInBuffer >= 32 {
        ghost var before, held := Stream(sink, order), buffer;
        var rest := bitsInBuffer - 32;
        var word, kept;
        if order == Msb0 {
          word, kept := UInt32(Shr(buffer, rest)), And(buffer, Mask(rest));
        } else {
          word, kept := UInt32(buffer), Shr(buffer, 32);
        }
        Emit(word, 4);
        buffer, bitsInBuffer := kept, rest;
        DrainStep(order, before, Stream(sink, order), held, old(bitsInBuffer), rest, word, kept);
      }
      CountWraps(old(bitsInBuffer), bitsInBuffer);
    }

    /**
     * `WriteBits` as the C# code has it: the drain emits `(uint)buffer` and
     * keeps `buffer >> 32` under both orders. The writer stays well formed,
     * but under Msb0 the bits come out in write order only while the
     * accumulator does not go past 32 bits.
     */
    method WriteBitsAsWritten(bitCount: nat, value: uint32)
      requires Valid() && bitCount <= 32
      modifies this
      ensures Valid()
      ensures order == Lsb0 || old(bitsInBuffer) + bitCount <= 32 ==>
        Bits() == old(Bits()) + ToBits(order, bitCount, value)
      ensures bitsInBuffer == (old(bitsInBuffer) + bitCount) % 32
      ensures !(bitCount == 32 && old(bitsInBuffer) == 0) ==>
        var merged := Merge(order, old(buffer), old(bitsInBuffer), bitCount, And(value, Mask(bitCount)));
        if old(bitsInBuffer) + bitCount >= 32 then
          sink == old(sink) + Write(order, UInt32(merged), 4) && buffer == Shr(merged, 32)
        else
          sink == old(sink) && buffer == merged
      ensures WrittenBitCount() == old(WrittenBitCount()) + bitCount
      ensures old(sink) <= sink
    {
      if bitCount == 32 && bitsInBuffer == 0 {
        ghost var before := Stream(sink, order);
        Emit(value, 4);
        EmptyBuffer(order, before, Stream(sink, order), buffer);
        return;
      }
      Accumulate(bitCount, value);
      DrainAsWritten();
    }

    /** The C# code's drain: the low 32 bits go to the sink, whatever the order. */
    method DrainAsWritten()
      requires |sink| == writtenBytes && bitsInBuffer < 64 && buffer < Pow2(bitsInBuffer)
      modifies this`sink, this`writtenBytes, this`buffer, this`bitsInBuffer
      ensures Valid()
      ensures order == Lsb0 || old(bitsInBuffer) <= 32 ==> Bits() == old(Bits())
      ensures old(bitsInBuffer) >= 32 ==>
        sink == old(sink) + Write(order, UInt32(old(buffer)), 4) && buffer == Shr(old(buffer), 32)
      ensures old(bitsInBuffer) < 32 ==> sink == old(sink) && buffer == old(buffer)
      ensures bitsInBuffer == old(bitsInBuffer) % 32
      ensures WrittenBitCount() == old(WrittenBitCount())
      ensures old(sink) <= sink
    {
      if bitsInBuffer >= 32 {
        ghost var before, held := Stream(sink, order), buffer;
        var rest := bitsInBuffer - 32;
        Emit(UInt32(buffer), 4);
        buffer, bitsInBuffer := Shr(buffer, 32), rest;
        DrainAsWrittenStep(order, before, Stream(sink, order), held, old(bitsInBuffer), rest);
      }
      CountWraps(old(bitsInBuffer), bitsInBuffer);
    }

    /**
     * `Pad`: zeros up to the next byte boundary, 8 of them when already on
     * one. It never takes the accumulator past 32 bits, so the Msb0 drain
     * is not involved.
     */
    method Pad() returns (bitCount: nat)
      requires Valid()
      modifies this
      ensures bitCount == 8 - old(bitsInBuffer) % 8 && 1 <= bitCount <= 8
      ensures old(bitsInBuffer) + bitCount <= 32
      ensures Valid() && bitsInBuffer % 8 == 0
      ensures Bits() == old(Bits()) + ToBits(order, bitCount, 0)
      ensures WrittenBitCount() == old(WrittenBitCount()) + bitCount
    {
      bitCount := 8 - bitsInBuffer % 8;
      PadAligns(bitsInBuffer, bitCount);
      WriteBitsAsWritten(bitCount, 0);
    }

    /**
     * `Flush`: the buffered bits, a whole number of bytes, go to the sink and
     * the accumulator is emptied. `ok` is false where the C# code throws
     * `InvalidOperationException`, on a writer that is not byte aligned.
     * The C# code's `bitsInBuffer >= 32` branch cannot be taken: between calls
     * at most 31 bits are buffered.
     */
    method Flush() returns (ok: bool)
      requires Valid()
      modifies this
      ensures ok == (old(bitsInBuffer) % 8 == 0)
      ensures !ok ==> unchanged(this)
      ensures ok ==> Valid() && buffer == 0 && bitsInBuffer == 0
      ensures ok ==> Stream(sink, order) == old(Bits()) && Bits() == old(Bits())
      ensures ok ==> sink == old(sink) + Write(order, UInt32(old(buffer)), old(bitsInBuffer) / 8)
      ensures ok ==> WrittenBitCount() == old(WrittenBitCount())
    {
      if bitsInBuffer % 8 != 0 {
        return false;
      }
      if bitsInBuffer >= 32 {
        assert false;
      }
      FitsInWord(buffer, bitsInBuffer);
      Emit(UInt32(buffer), bitsInBuffer / 8);
      buffer, bitsInBuffer := 0, 0;
      return true;
    }
  }

  // ---------------------------------------------------------------------------
  // Lemmas

  /**
   * Masking with `masks[n]` and merging appends the n low bits of the value
   * to the buffered bits: bits of the value above n are ignored.
   */
  lemma AccumulateStep(order: BitOrder, buffer: nat, bits: nat, count: nat, value: nat)
    requires buffer < Pow2(bits) && bits + count <= 64
    ensures Merge(order, buffer, bits, count, And(value, Mask(count))) < Pow2(bits + count)
    ensures ToBits(order, bits + count, Merge(order, buffer, bits, count, And(value, Mask(count)))) ==
      ToBits(order, bits, buffer) + ToBits(order, count, value)
  {
    var masked := And(value, Mask(count));
    AndLowMask(value, count);
    DivBounds(value, Pow2(count));
    MergeMeaning(order, buffer, bits, count, masked);
    ToBitsLowBits(order, count, value);
  }

  /**
   * The Msb0 drain of 32 + rest held bits: `(uint)(held >> rest)` carries the
   * first 32 in write order and `held & masks[rest]` the other rest.
   */
  lemma DrainTop(held: nat, rest: nat)
    requires rest < 32 && held < Pow2(32 + rest)
    ensures And(held, Mask(rest)) < Pow2(rest)
    ensures ToBits(Msb0, 32 + rest, held) ==
      ToBits(Msb0, 32, UInt32(Shr(held, rest))) + ToBits(Msb0, rest, And(held, Mask(rest)))
  {
    var hi, kept := Shr(held, rest), And(held, Mask(rest));
    assert kept == held % Pow2(rest) < Pow2(rest) by {
      AndLowMask(held, rest);
      DivBounds(held, Pow2(rest));
    }
    assert UInt32(hi) == hi by {
      ShrIsDiv(held, rest);
      QuotientBound(held, 32, rest, hi);
      FitsInWord(hi, 32);
    }
    assert ToBits(Msb0, 32 + rest, held) == ToBits(Msb0, 32, hi) + ToBits(Msb0, rest, held) by {
      ShrIsDiv(held, rest);
      SplitMsb0(32, rest, held, hi);
    }
    ToBitsLowBits(Msb0, rest, held);
  }

  /**
   * The Lsb0 drain of 32 + rest held bits: `(uint)held` carries the first 32
   * in write order and `held >> 32` the other rest.
   */
  lemma DrainBottom(held: nat, rest: nat)
    requires rest < 32 && held < Pow2(32 + rest)
    ensures Shr(held, 32) < Pow2(rest)
    ensures ToBits(Lsb0, 32 + rest, held) ==
      ToBits(Lsb0, 32, UInt32(held)) + ToBits(Lsb0, rest, Shr(held, 32))
  {
    var hi := Shr(held, 32);
    ShrIsDiv(held, 32);
    QuotientBound(held, rest, 32, hi);
    SplitLsb0(32, rest, held, hi);
    WordIsLowBits(held);
    ToBitsLowBits(Lsb0, 32, held);
  }

  /** `(uint)x` is x mod 2^32. */
  lemma WordIsLowBits(x: nat)
    ensures UInt32(x) == x % Pow2(32)
  {
    Pow2Word();
  }

  /**
   * The corrected drain keeps `Bits()`: the word emitted carries the first 32
   * buffered bits in write order and the bits kept are the rest.
   */
  lemma DrainStep(order: BitOrder, before: seq<bool>, after: seq<bool>, held: nat, bits: nat, rest: nat,
                  word: uint32, kept: nat)
    requires bits == 32 + rest && rest < 32 && held < Pow2(bits)
    requires order == Msb0 ==> word == UInt32(Shr(held, rest)) && kept == And(held, Mask(rest))
    requires order == Lsb0 ==> word == UInt32(held) && kept == Shr(held, 32)
    requires after == before + ToBits(order, 32, word)
    ensures kept < Pow2(rest)
    ensures after + ToBits(order, rest, kept) == before + ToBits(order, bits, held)
  {
    AppendAssoc(before, ToBits(order, 32, word), ToBits(order, rest, kept));
    if order == Msb0 {
      DrainTop(held, rest);
    } else {
      DrainBottom(held, rest);
    }
  }

  /**
   * The C# code's drain keeps `Bits()` under Lsb0, and under Msb0 when exactly
   * 32 bits are buffered; the bits kept are below 2^rest either way.
   */
  lemma DrainAsWrittenStep(order: BitOrder, before: seq<bool>, after: seq<bool>, held: nat, bits: nat, rest: nat)
    requires bits == 32 + rest && rest < 32 && held < Pow2(bits)
    requires after == before + ToBits(order, 32, UInt32(held))
    ensures Shr(held, 32) < Pow2(rest)
    ensures order == Lsb0 || rest == 0 ==>
      after + ToBits(order, rest, Shr(held, 32)) == before + ToBits(order, bits, held)
  {
    AppendAssoc(before, ToBits(order, 32, UInt32(held)), ToBits(order, rest, Shr(held, 32)));
    DrainBottom(held, rest);
    if order == Msb0 && rest == 0 {
      DrainTop(held, 0);
      assert Pow2(0) == 1;
    }
  }

  /** `Pad` writes 1 to 8 bits and ends on a byte boundary without passing 32 buffered bits. */
  lemma PadAligns(bits: nat, count: nat)
    requires bits <= 31 && count == 8 - bits % 8
    ensures 1 <= count <= 8 && bits + count <= 32 && ((bits + count) % 32) % 8 == 0
  {
  }

  /** With nothing buffered, the bits written are the sink's stream. */
  lemma EmptyBuffer(order: BitOrder, before: seq<bool>, after: seq<bool>, buffer: nat)
    requires buffer < Pow2(0)
    ensures before + ToBits(order, 0, buffer) == before
    ensures after + ToBits(order, 0, buffer) == after
  {
    assert ToBits(order, 0, buffer) == [];
  }

  /** After a drain the count of buffered bits is the count before it modulo 32. */
  lemma CountWraps(total: nat, after: nat)
    requires total < 64 && after == if total >= 32 then total - 32 else total
    ensures after == total % 32
  {
  }

  /**
   * The fast path of `WriteBits` emits the word the general path would: a
   * 32-bit value merged into an empty accumulator is drained whole, leaving
   * nothing behind, under either drain.
   */
  lemma FastPathAgrees(order: BitOrder, value: uint32)
    ensures var merged := Merge(order, 0, 0, 32, And(value, Mask(32)));
      UInt32(Shr(merged, 0)) == value && And(merged, Mask(0)) == 0 &&
      UInt32(merged) == value && Shr(merged, 32) == 0
  {
    Pow2Word();
    WholeField(order, value, 32);
  }

  /** A field of n <= 32 bits merged into an empty accumulator is the whole accumulator. */
  lemma WholeField(order: BitOrder, value: nat, n: nat)
    requires value < Pow2(n) && n <= 32
    ensures var merged := Merge(order, 0, 0, n, And(value, Mask(n)));
      UInt32(Shr(merged, 0)) == value && And(merged, Mask(0)) == 0 &&
      UInt32(merged) == value && Shr(merged, n) == 0
  {
    var masked := And(value, Mask(n));
    MaskOfSmall(value, n);
    var merged := Merge(order, 0, 0, n, masked);
    assert merged == value by {
      assert Pow2(0) == 1;
    }
    assert Shr(merged, n) == 0 by {
      ShrIsDiv(value, n);
      DivModOfMulAdd(0, Pow2(n), value);
    }
    assert And(merged, Mask(0)) == 0 by {
      assert Pow2(0) == 1;
    }
    FitsInWord(value, n);
  }

  /** The bits `Pad` appends are all zero. */
  lemma {:induction false} ZeroBits(order: BitOrder, n: nat)
    ensures forall i :: 0 <= i < n ==> !ToBits(order, n, 0)[i]
  {
    if n > 0 {
      ZeroBits(order, n - 1);
      assert ToBits(order, n, 0) == (if order == Lsb0 then [false] + ToBits(order, n - 1, 0)
        else ToBits(order, n - 1, 0) + [false]);
    }
  }

  /**
   * The C# code's Msb0 drain loses write order. From an empty writer,
   * `WriteBits(31, 0)` then `WriteBits(2, 0b11)` buffers 33 bits whose
   * value is 3; the C# code emits `(uint)3`, whose stream has bit 30 set,
   * while bit 30 of what was written is one of the 31 zeros.
   */
  lemma Msb0DrainCounterexample()
    ensures Merge(Msb0, 0, 31, 2, And(3, Mask(2))) == 3
    ensures var asWritten := Stream(Write(Msb0, UInt32(3), 4), Msb0) + ToBits(Msb0, 1, Shr(3, 32));
      var written := ToBits(Msb0, 31, 0) + ToBits(Msb0, 2, 3);
      |asWritten| == |written| == 33 && asWritten[30] && !written[30]
  {
    assert Pow2(2) == 4 && UInt32(3) == 3;
    MaskOfSmall(3, 2);
    StreamOfWrite(Msb0, 3, 4);
    Overshoot(32);
  }

  /**
   * The counterexample on the writer itself: a fresh Msb0 writer given
   * `WriteBits(31, 0)` and `WriteBits(2, 0b11)` as the C# code has them holds
   * 33 bits that are not the 33 bits written.
   */
  method Msb0DrainAsWritten() returns (bits: seq<bool>)
    ensures |bits| == 33 && bits[30]
    ensures bits != ToBits(Msb0, 31, 0) + ToBits(Msb0, 2, 3)
  {
    var writer := new BitWriter(Msb0);
    var zeros: nat := 31;
    writer.WriteBitsAsWritten(zeros, 0);
    ZeroField(Msb0, zeros);
    bits := TwoOnesAfterZeros(writer);
  }

  /** The second write of the counterexample, on a writer holding 31 zero bits and nothing else. */
  method TwoOnesAfterZeros(writer: BitWriter) returns (bits: seq<bool>)
    requires writer.Valid() && writer.order == Msb0
    requires writer.sink == [] && writer.buffer == 0 && writer.bitsInBuffer == 31
    modifies writer
    ensures |bits| == 33 && bits[30]
    ensures bits != ToBits(Msb0, 31, 0) + ToBits(Msb0, 2, 3)
  {
    var ones, three: nat := 2, 3;
    ghost var merged := Merge(Msb0, writer.buffer, writer.bitsInBuffer, ones, And(three, Mask(ones)));
    writer.WriteBitsAsWritten(ones, three);
    bits := writer.Bits();
    DrainedBits(bits, writer.sink, writer.buffer, writer.bitsInBuffer, merged);
  }

  /** The 33 bits the C# code's writer holds at the end of the counterexample. */
  lemma DrainedBits(bits: seq<bool>, sink: seq<byte>, buffer: nat, bitsInBuffer: nat, merged: nat)
    requires merged == Merge(Msb0, 0, 31, 2, And(3, Mask(2)))
    requires sink == Write(Msb0, UInt32(merged), 4) && buffer == Shr(merged, 32) && bitsInBuffer == 1
    requires bits == Stream(sink, Msb0) + ToBits(Msb0, bitsInBuffer, buffer)
    ensures |bits| == 33 && bits[30]
    ensures bits != ToBits(Msb0, 31, 0) + ToBits(Msb0, 2, 3)
  {
    Msb0DrainCounterexample();
  }

  /** Zero bits merged into an empty accumulator leave it zero. */
  lemma ZeroField(order: BitOrder, n: nat)
    requires n <= 32
    ensures Merge(order, 0, 0, n, And(0, Mask(n))) == 0
  {
    assert Pow2(0) == 1;
  }

  /** The two bits that tell the streams of the counterexample apart, for a width n of 32. */
  lemma Overshoot(n: nat)
    requires n == 32
    ensures ToBits(Msb0, n, 3)[n - 2] && !ToBits(Msb0, n - 1, 0)[n - 2]
  {
    ToBitsMsb0At(n, 3, n - 2);
    assert Pow2(1) == 2;
    ZeroBits(Msb0, n - 1);
  }
}
