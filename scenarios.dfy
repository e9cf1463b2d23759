/**
 * The repository's unit tests as verified scenarios: each method runs the
 * steps of one test against the model and its `ensures` are the test's
 * assertions (test/Bite.Tests/BitWriterTests.cs, BitReaderTests.cs and
 * BitViewTests.cs). The writer scenarios use the C# code's own `WriteBits`,
 * `WriteBitsAsWritten`: none of them buffers more than 32 bits, so its Msb0
 * drain is never reached.
 */
module Scenarios {
  import opened Machine
  import opened Order
  import opened BitFields
  import opened BitStream
  import opened BitUtils
  import opened Chunks
  import Writer
  import Reader
  import View

  /** The 19-bit field of the multi-byte tests, 0b1101000111001011111. */
  const LongField: uint32 := 0x68E5F

  /** The tests' field values fit their widths, so they read back unchanged. */
  lemma TestValuesFit()
    ensures 2 % Pow2(2) == 2 && 6 % Pow2(3) == 6 && LongField % Pow2(19) == LongField
  {
    Widths();
  }

  // ---------------------------------------------------------------------------
  // Layouts: the tests' fields against the tests' bytes

  /**
   * Three fields of widths a, b and c, one after the other, are the a + b + c
   * bits of one value: x | y << a | z << (a + b) under Lsb0 and
   * x << (b + c) | y << c | z under Msb0.
   */
  lemma ThreeFields(order: BitOrder, a: nat, b: nat, c: nat, x: nat, y: nat, z: nat, w: nat)
    requires x < Pow2(a) && y < Pow2(b) && z < Pow2(c)
    requires order == Lsb0 ==> w == x + (y + z * Pow2(b)) * Pow2(a)
    requires order == Msb0 ==> w == (x * Pow2(b) + y) * Pow2(c) + z
    ensures ToBits(order, a + b + c, w) == ToBits(order, a, x) + ToBits(order, b, y) + ToBits(order, c, z)
  {
    if order == Lsb0 {
      ConcatLsb0(b, c, y, z, y + z * Pow2(b));
      ConcatLsb0(a, b + c, x, y + z * Pow2(b), w);
      assert a + (b + c) == a + b + c;
    } else {
      ConcatMsb0(a, b, x, y, x * Pow2(b) + y);
      ShiftedBound(x, a, b);
      ConcatMsb0(a + b, c, x * Pow2(b) + y, z, w);
    }
  }

  /** Two, three and three padding bits: 0x1A under Lsb0, 0xB0 under Msb0. */
  lemma FewBitsLayout(order: BitOrder, b: byte)
    requires (order == Lsb0 && b == 0x1A) || (order == Msb0 && b == 0xB0)
    ensures Stream([b], order) == ToBits(order, 2, 2) + ToBits(order, 3, 6) + ToBits(order, 3, 0)
  {
    StreamOfByte(b, order);
    Widths();
    ThreeFields(order, 2, 3, 3, 2, 6, 0, b);
  }

  /** Three bytes laid end to end are the three byte patterns in turn. */
  lemma ThreeBytes(order: BitOrder, bytes: seq<byte>)
    requires |bytes| == 3
    ensures Stream(bytes, order) == ToBits(order, 8, bytes[0]) + ToBits(order, 8, bytes[1]) + ToBits(order, 8, bytes[2])
  {
    assert bytes == [bytes[0]] + [bytes[1]] + [bytes[2]];
    StreamAppend([bytes[0]] + [bytes[1]], [bytes[2]], order);
    StreamAppend([bytes[0]], [bytes[1]], order);
    StreamOfByte(bytes[0], order);
    StreamOfByte(bytes[1], order);
    StreamOfByte(bytes[2], order);
  }

  /** The widths the tests use. */
  lemma Widths()
    ensures Pow2(2) == 4 && Pow2(3) == 8 && Pow2(8) == 0x100 && Pow2(19) == 0x8_0000
  {
    assert Pow2(2) == 4 && Pow2(3) == 8 && Pow2(8) == 0x100 && Pow2(19) == 0x8_0000;
  }

  /** The three bytes of the multi-byte tests and their fields are the same 24-bit value w. */
  lemma SameTwentyFourBits(order: BitOrder, b0: byte, b1: byte, b2: byte, long: nat, w: nat)
    requires (order == Lsb0 && b0 == 0xFA && b1 == 0xCB && b2 == 0xD1 && w == 0xD1CBFA) ||
             (order == Msb0 && b0 == 0xB6 && b1 == 0x8E && b2 == 0x5F && w == 0xB68E5F)
    requires long == LongField
    ensures ToBits(order, 8, b0) + ToBits(order, 8, b1) + ToBits(order, 8, b2) ==
            ToBits(order, 2, 2) + ToBits(order, 3, 6) + ToBits(order, 19, long)
  {
    Widths();
    ThreeFields(order, 8, 8, 8, b0, b1, b2, w);
    ThreeFields(order, 2, 3, 19, 2, 6, long, w);
  }

  /** Two, three and nineteen bits: FA CB D1 under Lsb0, B6 8E 5F under Msb0. */
  lemma MultiByteLayout(order: BitOrder, bytes: seq<byte>, long: nat)
    requires (order == Lsb0 && bytes == [0xFA, 0xCB, 0xD1]) || (order == Msb0 && bytes == [0xB6, 0x8E, 0x5F])
    requires long == LongField
    ensures Stream(bytes, order) == ToBits(order, 2, 2) + ToBits(order, 3, 6) + ToBits(order, 19, long)
  {
    ThreeBytes(order, bytes);
    SameTwentyFourBits(order, bytes[0], bytes[1], bytes[2], long, if order == Lsb0 then 0xD1CBFA else 0xB68E5F);
  }

  // ---------------------------------------------------------------------------
  // BitWriterTests

  /**
   * The C# code's `WriteBits` while the accumulator stays short of 32 bits:
   * the field's bits are appended and nothing is drained.
   */
  method Put(writer: Writer.BitWriter, n: nat, value: uint32)
    requires writer.Valid() && writer.bitsInBuffer + n < 32
    modifies writer
    ensures writer.Valid() && writer.bitsInBuffer == old(writer.bitsInBuffer) + n
    ensures writer.Bits() == old(writer.Bits()) + ToBits(writer.order, n, value)
  {
    writer.WriteBitsAsWritten(n, value);
  }

  /**
   * The steps of `CanWriteFewBits` under either order: 0b10 in two bits,
   * 0b110 in three, `Pad` fills 3 and `Flush` writes one byte holding the
   * two fields and the padding.
   */
  method WriteFewBits(order: BitOrder) returns (filled: nat, written: seq<byte>)
    ensures filled == 3 && |written| == 1
    ensures Stream(written, order) == ToBits(order, 2, 2) + ToBits(order, 3, 6) + ToBits(order, 3, 0)
  {
    var writer := new Writer.BitWriter(order);
    Put(writer, 2, 2);
    assert writer.Bits() == ToBits(order, 2, 2);
    Put(writer, 3, 6);
    filled := writer.Pad();
    ghost var bits := writer.Bits();
    var flushed := writer.Flush();
    written := writer.sink;
    assert Stream(written, order) == bits;
  }

  /** `CanWriteFewBits`: the byte written is 0x1A under Lsb0 and 0xB0 under Msb0. */
  method CanWriteFewBits(order: BitOrder, expected: byte) returns (filled: nat, written: seq<byte>)
    requires (order == Lsb0 && expected == 0x1A) || (order == Msb0 && expected == 0xB0)
    ensures filled == 3 && written == [expected]
  {
    filled, written := WriteFewBits(order);
    FewBitsLayout(order, expected);
    StreamInjective(written, [expected], order);
  }

  /**
   * The steps of `CanWriteBitsInMultipleBytes`, for any three fields that
   * fill whole bytes and leave the accumulator short of 32 bits: `Flush`
   * writes them without padding.
   */
  method WriteThreeFields(order: BitOrder, a: nat, x: uint32, b: nat, y: uint32, c: nat, z: uint32)
    returns (written: seq<byte>)
    requires a + b + c < 32 && (a + b + c) % 8 == 0
    ensures 8 * |written| == a + b + c
    ensures Stream(written, order) == ToBits(order, a, x) + ToBits(order, b, y) + ToBits(order, c, z)
  {
    var writer := new Writer.BitWriter(order);
    Put(writer, a, x);
    assert writer.Bits() == ToBits(order, a, x);
    Put(writer, b, y);
    Put(writer, c, z);
    ghost var bits := writer.Bits();
    assert |bits| == a + b + c;
    var flushed := writer.Flush();
    written := writer.sink;
    assert Stream(written, order) == bits;
  }

  /** `CanWriteBitsInMultipleBytes`: FA CB D1 under Lsb0 and B6 8E 5F under Msb0. */
  method CanWriteBitsInMultipleBytes(order: BitOrder, expected: seq<byte>) returns (written: seq<byte>)
    requires (order == Lsb0 && expected == [0xFA, 0xCB, 0xD1]) || (order == Msb0 && expected == [0xB6, 0x8E, 0x5F])
    ensures written == expected
  {
    written := WriteThreeFields(order, 2, 2, 3, 6, 19, LongField);
    MultiByteLayout(order, expected, LongField);
    StreamInjective(written, expected, order);
  }

  // ---------------------------------------------------------------------------
  // BitReaderTests

  /**
   * The C# code's `ReadBits` on a reader whose `Position` stands at bit `at`
   * of its source bits s, when n bits remain: it gives the next n bits and
   * moves on by n.
   */
  method Next(reader: Reader.BitReader, n: nat, ghost s: seq<bool>, ghost at: nat) returns (value: uint32)
    requires reader.Valid() && reader.SourceBits() == s && n <= 32 && at + n <= |s|
    requires reader.StreamPos() == at && reader.position == at
    modifies reader
    ensures reader.Valid() && reader.SourceBits() == s
    ensures reader.StreamPos() == at + n && reader.position == at + n
    ensures value == FieldValue(reader.order, s[at .. at + n])
  {
    var r := reader.ReadBits(n);
    value := r.value;
  }

  /** Each of three fields laid out one after the other reads back as its low bits. */
  lemma ThreeFieldsAt(order: BitOrder, s: seq<bool>, a: nat, x: nat, b: nat, y: nat, c: nat, z: nat)
    requires s == ToBits(order, a, x) + ToBits(order, b, y) + ToBits(order, c, z)
    ensures |s| == a + b + c
    ensures FieldValue(order, s[0 .. a]) == x % Pow2(a)
    ensures FieldValue(order, s[a .. a + b]) == y % Pow2(b)
    ensures FieldValue(order, s[a + b .. a + b + c]) == z % Pow2(c)
  {
    var p, q, r := ToBits(order, a, x), ToBits(order, b, y), ToBits(order, c, z);
    ThreeParts(s, p, q, r);
    assert s[a + b .. a + b + c] == r;
    FieldValueOfToBits(order, a, x);
    FieldValueOfToBits(order, b, y);
    FieldValueOfToBits(order, c, z);
  }

  /** The three parts of a concatenation, as slices of it. */
  lemma ThreeParts<T>(s: seq<T>, p: seq<T>, q: seq<T>, r: seq<T>)
    requires s == p + q + r
    ensures s[0 .. |p|] == p && s[|p| .. |p| + |q|] == q && s[|p| + |q| .. |p| + |q| + |r|] == r
  {
  }

  /**
   * The steps of `CanReadFewBits`, over any bytes that start with a 2-bit
   * field x and a 3-bit field y: the reads give them back and the reader
   * stands at 5.
   */
  method ReadFewBits(order: BitOrder, bytes: seq<byte>, x: nat, y: nat, rest: seq<bool>)
    returns (start: nat, bitCount: nat, first: uint32, second: uint32, position: nat)
    requires Stream(bytes, order) == ToBits(order, 2, x) + ToBits(order, 3, y) + rest
    ensures start == 0 && bitCount == 8 * |bytes|
    ensures first == x % Pow2(2) && second == y % Pow2(3) && position == 5
  {
    var reader := new Reader.BitReader.FromBytes(bytes, order);
    ghost var s := reader.SourceBits();
    ThreeParts(s, ToBits(order, 2, x), ToBits(order, 3, y), rest);
    FieldValueOfToBits(order, 2, x);
    FieldValueOfToBits(order, 3, y);
    start, bitCount := reader.position, reader.BitCount();
    first := Next(reader, 2, s, 0);
    second := Next(reader, 3, s, 2);
    position := reader.position;
  }

  /** `CanReadFewBits`: a one-byte source of 8 bits gives 0b10 and 0b110 and stands at 5. */
  method CanReadFewBits(order: BitOrder, bytes: seq<byte>)
    returns (start: nat, bitCount: nat, first: uint32, second: uint32, position: nat)
    requires (order == Lsb0 && bytes == [0x1A]) || (order == Msb0 && bytes == [0xB0])
    ensures start == 0 && bitCount == 8
    ensures first == 2 && second == 6 && position == 5
  {
    FewBitsLayout(order, bytes[0]);
    assert [bytes[0]] == bytes;
    start, bitCount, first, second, position := ReadFewBits(order, bytes, 2, 6, ToBits(order, 3, 0));
    TestValuesFit();
  }

  /**
   * The steps of `CanReadBitsInMultipleBytes`, over any chunks whose bytes
   * hold fields of 2, 3 and 19 bits and nothing more: the reads give them
   * back and the reader stands at 24.
   */
  method ReadThreeFields(order: BitOrder, sequence: seq<seq<byte>>, x: nat, y: nat, z: nat)
    returns (start: nat, bitCount: nat, first: uint32, second: uint32, third: uint32, position: nat)
    requires Stream(Flatten(sequence), order) == ToBits(order, 2, x) + ToBits(order, 3, y) + ToBits(order, 19, z)
    ensures start == 0 && bitCount == 24
    ensures first == x % Pow2(2) && second == y % Pow2(3) && third == z % Pow2(19) && position == 24
  {
    var reader := new Reader.BitReader(sequence, order);
    ThreeFieldsAt(order, reader.SourceBits(), 2, x, 3, y, 19, z);
    start, bitCount := reader.position, reader.BitCount();
    ghost var s := reader.SourceBits();
    first := Next(reader, 2, s, 0);
    second := Next(reader, 3, s, 2);
    third := Next(reader, 19, s, 5);
    position := reader.position;
  }

  /**
   * `CanReadBitsInMultipleBytes`: 24 bits read as 2, 3 and 19 of them, from
   * the bytes in one block or split into chunks in any way (the test's
   * `Fragmentize` makes one chunk per byte).
   */
  method CanReadBitsInMultipleBytes(order: BitOrder, bytes: seq<byte>, sequence: seq<seq<byte>>)
    returns (start: nat, bitCount: nat, first: uint32, second: uint32, third: uint32, position: nat)
    requires (order == Lsb0 && bytes == [0xFA, 0xCB, 0xD1]) || (order == Msb0 && bytes == [0xB6, 0x8E, 0x5F])
    requires Flatten(sequence) == bytes
    ensures start == 0 && bitCount == 24
    ensures first == 2 && second == 6 && third == LongField && position == 24
  {
    MultiByteLayout(order, bytes, LongField);
    start, bitCount, first, second, third, position := ReadThreeFields(order, sequence, 2, 6, LongField);
    TestValuesFit();
  }

  /**
   * `CanEnumerateBooleans`, for every input: the reader's `ToArray` is
   * `new BitArray(input)` under Lsb0 and the `BitArray` of the bit-reversed
   * bytes under Msb0.
   */
  method CanEnumerateBooleans(order: BitOrder, input: seq<byte>) returns (bits: seq<bool>)
    ensures bits == if order == Msb0 then BitArrayOf(MapReverseBits(input)) else BitArrayOf(input)
  {
    var reader := new Reader.BitReader.FromBytes(input, order);
    var flags := reader.ToArray();
    bits := flags[..];
    assert bits == Stream(input, order);
    if order == Msb0 {
      StreamOfReversed(input);
    }
  }

  // ---------------------------------------------------------------------------
  // BitViewTests

  /**
   * The steps of `CanAccessAndIterate`, for any bytes: indexing every bit of
   * the view and its `ToArray` both give the stream of the bytes.
   */
  method AccessAndIterate(order: BitOrder, bytes: seq<byte>) returns (indexed: seq<bool>, iterated: seq<bool>)
    ensures indexed == Stream(bytes, order) && iterated == Stream(bytes, order)
  {
    var block := new byte[|bytes|](i requires 0 <= i < |bytes| => bytes[i]);
    assert block[..] == bytes;
    var view := new View.BitView(block, order);
    var count := view.Count();
    indexed := [];
    for i := 0 to count
      invariant indexed == view.Bits()[..i]
    {
      var bit := view.Get(i);
      indexed := indexed + [bit];
    }
    var flags := view.ToArray();
    iterated := flags[..];
  }

  /** `CanAccessAndIterate`: indexing bits 0 to 15 and `ToArray` both give 1100000010000001. */
  method CanAccessAndIterate(order: BitOrder, bytes: seq<byte>) returns (indexed: seq<bool>, iterated: seq<bool>)
    requires (order == Lsb0 && bytes == [0x03, 0x81]) || (order == Msb0 && bytes == [0xC0, 0x81])
    ensures indexed == iterated
    ensures indexed == [true, true, false, false, false, false, false, false,
                        true, false, false, false, false, false, false, true]
  {
    indexed, iterated := AccessAndIterate(order, bytes);
    if order == Lsb0 {
      View.ViewExamples(bytes, [0xC0, 0x81]);
    } else {
      View.ViewExamples([0x03, 0x81], bytes);
    }
  }
}
