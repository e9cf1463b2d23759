# Bite: bit reader, bit writer and bit view, in Dafny

Bite reads and writes unsigned fields of 0 to 32 bits packed into bytes. It
supports two bit orders:

- **Lsb0:** bit 0 of a byte is its least significant bit.
- **Msb0:** bit 0 is its most significant bit.

This project models the library's core and proves what it promises.

- `BitReader` takes fields from a possibly fragmented byte source through a
  64-bit accumulator. It refills four bytes at a time and hands out the top or
  bottom bits of the accumulator.
- `BitWriter` collects fields in a 64-bit accumulator. It drains four bytes
  at a time to a byte sink, and has `Pad` and `Flush`.
- `BitView` is a list of bits over a byte buffer, with an indexer and an
  enumerator.
- `BitOrderExtensions` holds the word codec the two streams share. `Read` and
  `Write` move between up to four bytes and a `uint`, and `GetBit` tests one bit.
- `BitUtils` holds the mask table, `ReverseBits` and `CreateBitArray`.

## How the model is organised

Every promise is stated against one reference. `Stream(bytes, order)` is the
sequence of bits of a byte sequence in read order. `ToBits(order, n, x)` and
`FieldValue(order, bits)` move between a value and its n bits in read order.

- The reader keeps the invariant that its accumulator holds exactly the stream
  bits between the next bit to hand out and the end of the consumed bytes. Its
  `ReadBits` hands out the value of the next n stream bits.
- The writer's `Bits()` is everything written so far: the stream of the sink
  followed by the buffered bits. Every writer method says what it appends to
  `Bits()`.
- The view's bits are the stream of its buffer. `Set` changes exactly one of
  them.

The C# operators on `uint` and `ulong` are written out on naturals in module
`Machine`: the 64-bit wrap of `<<`, `>>`, `|`, `&` and the `(uint)` cast.
Lemmas show where these operators act as plain arithmetic. Of the `int`
arithmetic, only the mask table's wrapping `(1 << i) - 1` is written out. The
`int` counters (`Position`, `BitCount`, `WrittenBitCount`, `Count` and the
array sizes) are unbounded naturals; see "Left out". Bytes are
`byte = x: nat | x < 256`.

Modules, one per C# file where the code has one:

- `Order`: `BitOrder`.
- `Machine`: C# integer operators.
- `Endian`: `BinaryPrimitives`.
- `BitFields`: `ToBits`, `FieldValue` and the accumulator merge.
- `BitStream`: `Stream`.
- `BitOrderExtensions`.
- `BitUtils`.
- `Chunks`: the `ReadOnlySequence` source.
- `Reader`: `BitReader` and its `Enumerator`.
- `Writer`: `BitWriter`.
- `View`: `BitView` and its `MemoryEnumerator`.
- `RoundTrip`: the write-then-read fuzz test.
- `Scenarios`: the unit tests' concrete cases.

## Model

| member | source | states |
|---|---|---|
| Machine.Int32 | src/Bite/BitUtils.cs:12 | the unchecked `int` result lies in the `int` range and agrees with the exact value modulo 2^32 |
| Machine.UInt32 | src/Bite/BitReader.cs:69 | `(uint)x` leaves a value below 2^32 unchanged |
| Machine.ShlIsMul | src/Bite/BitWriter.cs:54 | `ulong` `x << s` is x * 2^s modulo 2^64 |
| Machine.Shl64NoWrap | src/Bite/BitWriter.cs:54-58 | a left shift whose result stays below 2^64 does not wrap |
| Machine.ShrIsDiv | src/Bite/BitWriter.cs:64 | `x >> s` is x / 2^s |
| Machine.OrOfShifted | src/Bite/BitReader.cs:96 | `(a << s) \| v` with v below 2^s is a * 2^s + v |
| Machine.AndLowMask | src/Bite/BitWriter.cs:51 | `x & (2^k - 1)` keeps the k low bits of x |
| Machine.AndPow2 | src/Bite/BitView.cs:21 | `x & 2^k` is non-zero exactly when bit k of x is set |
| Endian.ReverseEndianness | src/Bite/BitOrderExtensions.cs:32 | the four little-endian bytes of the result are those of the word in reverse order |
| Endian.LittleEndianOfLeBytes | src/Bite/BitOrderExtensions.cs:49 | the c low bytes of v read back little-endian give v mod 2^(8c) |
| Endian.LeBytesOfLittleEndian | src/Bite/BitOrderExtensions.cs:15 | every run of bytes is the little-endian encoding of its value |
| Endian.ReverseEndiannessOfWord | src/Bite/BitOrderExtensions.cs:30-33 | byte-reversing a word read little-endian reads the four bytes big-endian |
| BitFields.FieldValueBound | src/Bite/BitReader.cs:61-81 | the value of n bits is below 2^n |
| BitFields.FieldValueOfToBits | src/Bite/BitReader.cs:61-81 | reading back the n-bit pattern of x gives x mod 2^n |
| BitFields.FieldValueOfSmall | src/Bite/BitReader.cs:61-81 | a value below 2^n comes back unchanged from its pattern |
| BitFields.ToBitsOfFieldValue | src/Bite/BitWriter.cs:43-67 | every run of bits is the pattern of its value (the inverse direction) |
| BitFields.ToBitsInjective | src/Bite/BitWriter.cs:43-67 | two values below 2^n with the same pattern are equal |
| BitFields.ToBitsLsb0At | src/Bite/BitOrder.cs:13 | under Lsb0, bit i of a pattern has weight 2^i |
| BitFields.ToBitsMsb0At | src/Bite/BitOrder.cs:20 | under Msb0, bit i of an n-bit pattern has weight 2^(n-1-i) |
| BitFields.SplitLsb0 | src/Bite/BitReader.cs:74-75 | under Lsb0 the first a bits of x are its low bits and the rest are x >> a |
| BitFields.SplitMsb0 | src/Bite/BitReader.cs:69-70 | under Msb0 the last b bits of x are its low bits and the first are x >> b |
| BitFields.ToBitsLowBits | src/Bite/BitWriter.cs:51 | only the n low bits of a value shape its n-bit pattern, so masking it first changes nothing written |
| BitFields.ConcatLsb0 | src/Bite/BitWriter.cs:58 | under Lsb0, `lo \| (hi << a)` lays out the bits of lo and then those of hi |
| BitFields.ConcatMsb0 | src/Bite/BitWriter.cs:54 | under Msb0, `(hi << b) \| lo` lays out the bits of hi and then those of lo |
| BitFields.FieldValueAppendLsb0 | src/Bite/BitReader.cs:100 | under Lsb0, bits read later carry the higher weights |
| BitFields.FieldValueAppendMsb0 | src/Bite/BitReader.cs:96 | under Msb0, bits read earlier carry the higher weights |
| BitFields.Merge | src/Bite/BitReader.cs:94-101 | the accumulator merge the reader and the writer (BitWriter.cs:52-59) share: when the buffered value fits its bits, the new value fits its count and both fit 64 bits, neither shift wraps and the merge is the sum of two disjoint parts (buffer above the value under Msb0, value above the buffer under Lsb0), below 2^(bits+count) |
| BitFields.MergeFields | src/Bite/BitReader.cs:94-101 | merging the value of the buffered bits with the value of the next run gives the value of both runs |
| BitFields.MergeMeaning | src/Bite/BitWriter.cs:52-59 | the merged accumulator's pattern is the buffered bits followed by the new field's bits |
| BitStream.StreamAt | src/Bite/BitOrderExtensions.cs:60-63 | stream bit i is `GetBit` of byte i / 8 at position i % 8 |
| BitStream.StreamAppend | src/Bite/BitWriter.cs:104-110 | the stream of appended byte runs is the concatenation of their streams |
| BitStream.StreamInjective | src/Bite/BitWriter.cs:104-110 | a byte sequence is determined by its stream |
| BitStream.StreamOfLittleEndian | src/Bite/BitOrderExtensions.cs:15 | under Lsb0 the stream of a run is the pattern of its little-endian value |
| BitStream.StreamOfBigEndian | src/Bite/BitOrderExtensions.cs:30-33 | under Msb0 the stream of a run is the pattern of its big-endian value |
| BitStream.StreamOfRead | src/Bite/BitOrderExtensions.cs:9-36 | the word `Read` returns holds, in read order, exactly the bits of the bytes it consumed |
| BitStream.ReadField | src/Bite/BitOrderExtensions.cs:9-36 | the word `Read` returns is the value of the stream bits of the bytes it consumed |
| BitStream.StreamOfWrite | src/Bite/BitOrderExtensions.cs:38-58 | the bytes `Write` produces carry the low 8c bits of the word in read order |
| BitOrderExtensions.GetBitMask | src/Bite/BitView.cs:19 | the mask of a bit position is a single power of two: 2^p under Lsb0 and 2^(7-p) under Msb0 |
| BitOrderExtensions.MaskIsPow2 | src/Bite/BitOrderExtensions.cs:60-63 | `0x80 >> p` is 2^(7-p), `0x01 << p` is 2^p, and both are below 256 |
| BitOrderExtensions.Read | src/Bite/BitOrderExtensions.cs:9-36 | consumes min(length, 4) bytes; the word is their little-endian value (Lsb0) or big-endian value (Msb0), below 2^(8 * consumed) |
| BitOrderExtensions.ReadMeaning | src/Bite/BitOrderExtensions.cs:12-35 | the zero-padded copy and the byte swap read the consumed bytes little-endian under Lsb0 and big-endian under Msb0 |
| BitOrderExtensions.Write | src/Bite/BitOrderExtensions.cs:38-58 | produces byteCount bytes whose little-endian (Lsb0) or big-endian (Msb0) value is value mod 2^(8 * byteCount) |
| BitOrderExtensions.WriteMeaning | src/Bite/BitOrderExtensions.cs:40-57 | the leading bytes of the word (Lsb0) or the trailing bytes of the byte-swapped word (Msb0) encode value mod 2^(8 * byteCount) |
| BitOrderExtensions.ReadOfWrite | src/Bite/BitOrderExtensions.cs:9-58 | reading back `Write(value, c)` consumes all c bytes and gives value mod 2^(8c) |
| BitOrderExtensions.WriteOfRead | src/Bite/BitOrderExtensions.cs:9-58 | writing back the word read from at most four bytes reproduces those bytes |
| BitOrderExtensions.ReadIgnoresTail | src/Bite/BitOrderExtensions.cs:12-15 | `Read` does not look past the fourth byte |
| BitOrderExtensions.GetBit | src/Bite/BitOrderExtensions.cs:60-63 | true exactly when the byte's bit of weight 2^position (Lsb0) or 2^(7-position) (Msb0) is set |
| BitOrderExtensions.GetBitMirror | src/Bite/BitOrderExtensions.cs:60-63 | Msb0 position p tests the same bit as Lsb0 position 7 - p |
| BitOrderExtensions.GetBitMeaning | src/Bite/BitOrderExtensions.cs:60-63 | `GetBit(order, b, p)` is bit p of the byte's 8-bit pattern in read order |
| BitOrderExtensions.GetBitMaskOneHot | src/Bite/BitView.cs:19-21 | the mask of position p tests true at p and false at every other position |
| BitUtils.CreateMaskTable | src/Bite/BitUtils.cs:7-18 | a fresh 33-entry table whose entry k is 2^k - 1, including entry 0 and entry 32 |
| BitUtils.MaskEntry | src/Bite/BitUtils.cs:12 | `(uint)((1 << i) - 1)` in wrapping `int` arithmetic is 2^i - 1 for i in 1..31, including i = 31 |
| BitUtils.ReverseBits | src/Bite/BitUtils.cs:37-42 | the 32-bit multiply-and-mask computation puts at Lsb0 position p the bit the input has at Msb0 position p, for all eight positions |
| BitUtils.ReverseBitsInvolution | src/Bite/BitUtils.cs:37-42 | reversing a byte twice gives it back |
| BitUtils.ReverseWordBits | src/Bite/BitUtils.cs:41 | bit p of the byte the 32-bit formula computes is bit 7 - p of its input |
| BitUtils.ReversedBit | src/Bite/BitUtils.cs:37-42 | bit p of the reversed byte is bit 7 - p of the byte |
| BitUtils.ReverseBitsReadsMsb0 | src/Bite/BitUtils.cs:37-42 | the reversed byte read Lsb0 gives the byte's bits read Msb0 |
| BitUtils.MapReverseBits | src/Bite/BitUtils.cs:24-28 | every byte of the result is `ReverseBits` of the byte at the same index |
| BitUtils.StreamOfReversed | src/Bite/BitUtils.cs:22-29 | bit-reversing every byte turns the Msb0 stream into the Lsb0 stream |
| BitUtils.CreateBitArray | src/Bite/BitUtils.cs:20-35 | the bits of the array are the stream of the bytes in the requested order |
| BitUtils.HighAndLow | src/Bite/BitReader.cs:69-70 | `(uint)(buffer >> m)` is the high part and `buffer & masks[m]` the low part of the accumulator |
| BitUtils.LowAndHigh | src/Bite/BitReader.cs:74-75 | `(uint)buffer & masks[n]` is the low part and `buffer >> n` the high part of the accumulator |
| BitUtils.MaskOfSmall | src/Bite/BitWriter.cs:51 | `& masks[k]` leaves a value below 2^k unchanged |
| BitUtils.MaskWord | src/Bite/BitReader.cs:74 | `(uint)x & masks[n]` keeps the n low bits of x |
| Chunks.FlattenSplit | src/Bite/BitReader.cs:90-91 | the bytes of a chunked source are those of the chunks before the cursor followed by the rest |
| Chunks.NonEmpty | src/Bite/BitReader.cs:34 | dropping the empty chunks leaves the bytes unchanged and every chunk non-empty |
| Reader.BitReader.constructor | src/Bite/BitReader.cs:32-36 | a reader over the flattened chunks, at stream position 0 with `Position` 0 |
| Reader.BitReader.FromBytes | src/Bite/BitReader.cs:27-30 | a reader over one block of bytes, at position 0 |
| Reader.BitReader.Copy | src/Bite/BitReader.cs:146-149 | the struct copy an enumerator takes: the same source, cursor, accumulator and `Position` |
| Reader.BitReader.CursorFacts | src/Bite/BitReader.cs:90-91 | the unread span is the next bytes of the source, non-empty unless the cursor is at the end |
| Reader.BitReader.Advance | src/Bite/BitReader.cs:91 | the cursor passes count more bytes and the accumulator is untouched |
| Reader.BitReader.Refill | src/Bite/BitReader.cs:90-102 | takes min(unread span, 4) bytes into the accumulator and keeps it equal to the unread stream bits |
| Reader.BitReader.Ensure | src/Bite/BitReader.cs:83-114 | succeeds exactly when enough bits remain, then holding at least the required number of bits; otherwise the source is exhausted, where the code throws |
| Reader.BitReader.ReadBits | src/Bite/BitReader.cs:61-81 | when enough bits remain: the value of the next n stream bits, below 2^n, and both positions advance by n; otherwise `IndexOutOfRange` with the positions unchanged |
| Reader.BitReader.Take | src/Bite/BitReader.cs:65-80 | hands out the value of the next n buffered stream bits from the top (Msb0) or bottom (Lsb0) of the accumulator and keeps the rest |
| Reader.BitReader.BitCount | src/Bite/BitReader.cs:25 | the number of bits in the source's stream |
| Reader.BitReader.TryReadBits | src/Bite/BitReader.cs:44-54 | succeeds exactly when `Position + n <= BitCount`; on success it returns the next n bits' value, on failure 0 with no state change |
| Reader.BitReader.Reset | src/Bite/BitReader.cs:131-136 | back to stream position 0 with an empty accumulator, `Position` kept |
| Reader.BitReader.ToArray | src/Bite/BitReader.cs:120-129 | a fresh array of `BitCount` flags: the stream bits from the current position on, then false |
| Reader.Drain | src/Bite/BitReader.cs:122-128 | the enumeration loop fills the array with the remaining stream bits |
| Reader.Yield | src/Bite/BitReader.cs:124-127 | one loop turn stores the next stream bit at the index, or stops with the reader unchanged |
| Reader.RefillStep | src/Bite/BitReader.cs:93-102 | merging the next run's value keeps the accumulator equal to the stream bits it covers |
| Reader.ReadRun | src/Bite/BitReader.cs:90 | the word read from the unread span is the value of the next stream bits of the source |
| Reader.TakeStep | src/Bite/BitReader.cs:66-79 | the value handed out is the next n stream bits and the accumulator keeps the bits after them |
| Reader.TakeTop | src/Bite/BitReader.cs:69-70 | under Msb0 the top n bits are the first n in read order |
| Reader.TakeBottom | src/Bite/BitReader.cs:74-75 | under Lsb0 the bottom n bits are the first n in read order |
| Reader.OneBit | src/Bite/BitReader.cs:154 | a one-bit field is 1 exactly when its bit is set |
| Reader.Enumerator.constructor | src/Bite/BitReader.cs:146-149 | a fresh copy of the reader, `Current` false |
| Reader.Enumerator.MoveNext | src/Bite/BitReader.cs:151-156 | true exactly while a bit remains after the copy's `Position`; `Current` is then that stream bit, else false with the reader unchanged |
| Reader.Enumerator.Reset | src/Bite/BitReader.cs:158-162 | `Current` false and the copy rewound to stream position 0, its `Position` kept |
| Writer.BitWriter.WrittenBitCount | src/Bite/BitWriter.cs:23 | the number of bits written so far, the length of `Bits()` |
| Writer.BitWriter.constructor | src/Bite/BitWriter.cs:31-35 | an empty sink, an empty accumulator and no bits written |
| Writer.BitWriter.Emit | src/Bite/BitWriter.cs:104-110 | appends `Write(value, byteCount)` to the sink, extending its stream by the low 8 * byteCount bits of value |
| Writer.BitWriter.WriteBits | src/Bite/BitWriter.cs:43-67 | appends the bitCount low bits of value to `Bits()`, in either order, and counts them; buffered bits stay below 32 (corrected drain) |
| Writer.BitWriter.Accumulate | src/Bite/BitWriter.cs:51-60 | the accumulator becomes the merge of the masked value into it, appending the value's low bits |
| Writer.BitWriter.Drain | src/Bite/BitWriter.cs:61-66 | with 32 or more bits buffered, moves the oldest 32 to the sink without changing `Bits()` (corrected) |
| Writer.BitWriter.WriteBitsAsWritten | src/Bite/BitWriter.cs:43-67 | the code as written: appends the bits under Lsb0, and under Msb0 only when no drain happens; off the fast path, the sink gains the word `(uint)` of the merged accumulator when 32 or more bits are held and the accumulator keeps the merge shifted down by 32, otherwise the sink is unchanged and the accumulator is the merge |
| Writer.BitWriter.DrainAsWritten | src/Bite/BitWriter.cs:61-66 | the code's drain of the low 32 bits keeps `Bits()` under Lsb0, or when no more than 32 bits were buffered; with 32 or more it emits `(uint)buffer` and keeps `buffer >> 32`, otherwise it changes nothing |
| Writer.BitWriter.Pad | src/Bite/BitWriter.cs:73-78 | through the code's own `WriteBits`, appends 8 - (buffered mod 8) zero bits (8 when already aligned) and ends on a byte boundary; the accumulator never passes 32 bits, so the Msb0 drain is not reached |
| Writer.BitWriter.Flush | src/Bite/BitWriter.cs:84-102 | fails with no change unless byte-aligned; otherwise empties the accumulator so that the sink's stream is every bit written |
| Writer.AccumulateStep | src/Bite/BitWriter.cs:51-59 | the masked merge appends the value's low bits to the buffered bits |
| Writer.DrainStep | src/Bite/BitWriter.cs:61-66 | emitting the top 32 (Msb0) or bottom 32 (Lsb0) buffered bits and keeping the rest loses no bit |
| Writer.DrainAsWrittenStep | src/Bite/BitWriter.cs:61-66 | emitting the low 32 bits and keeping `buffer >> 32` loses no bit under Lsb0, or when exactly 32 are buffered |
| Writer.DrainTop | src/Bite/BitWriter.cs:61-66 | for the corrected Msb0 drain, `(uint)(held >> rest)` carries the first 32 bits in write order and `held & masks[rest]` the rest |
| Writer.DrainBottom | src/Bite/BitWriter.cs:63-64 | under Lsb0, `(uint)held` carries the first 32 bits in write order and `held >> 32` the rest |
| Writer.FastPathAgrees | src/Bite/BitWriter.cs:45-49 | the 32-bit fast path emits the same word the general path would |
| Writer.WholeField | src/Bite/BitWriter.cs:45-49 | a field of n <= 32 bits merged into an empty accumulator is the whole accumulator |
| Writer.PadAligns | src/Bite/BitWriter.cs:75 | the pad count is 1 to 8 and never takes the buffer past 32 bits |
| Writer.ZeroBits | src/Bite/BitWriter.cs:76 | the padding bits are all zero |
| Writer.Msb0DrainAsWritten | src/Bite/BitWriter.cs:43-67 | a fresh Msb0 writer given `WriteBits(31, 0)` and `WriteBits(2, 0b11)` as the code has them holds 33 bits whose bit 30 is set, so they are not the 33 bits written |
| Writer.TwoOnesAfterZeros | src/Bite/BitWriter.cs:51-66 | the second write of that scenario, on a writer holding just the 31 zero bits |
| Writer.Msb0DrainCounterexample | src/Bite/BitWriter.cs:61-66 | after writing 31 zero bits and then 0b11 under Msb0, bit 30 of the code's output differs from bit 30 of what was written |
| View.BitView.constructor | src/Bite/BitView.cs:70-75 | a view over the given buffer in the given order |
| View.BitView.Count | src/Bite/BitView.cs:47 | eight bits per byte: the length of the view's bit list |
| View.BitView.Get | src/Bite/BitView.cs:10-22 | the indexer reads stream bit `index` of the buffer |
| View.BitView.Set | src/Bite/BitView.cs:23-41 | the indexer's setter changes exactly bit `index` to the value and no other byte |
| View.BitView.GetEnumerator | src/Bite/BitView.cs:98-116 | a fresh enumerator at the start of the buffer |
| View.BitView.ToArray | src/Bite/BitView.cs:87-96 | a fresh array holding the view's bits in order |
| View.Yield | src/Bite/BitView.cs:91-94 | one turn of the `foreach` stores the next stream bit at the index or stops |
| View.MemoryEnumerator.constructor | src/Bite/BitView.cs:132-139 | nothing loaded and nothing yielded |
| View.MemoryEnumerator.Current | src/Bite/BitView.cs:128 | false before the first bit, then the stream bit last yielded |
| View.MemoryEnumerator.MoveNext | src/Bite/BitView.cs:141-173 | true exactly while bits remain; it yields one more bit, loading the next byte when the mask runs out |
| View.MemoryEnumerator.Reset | src/Bite/BitView.cs:175-180 | back to the start with nothing yielded |
| View.ByteComplement | src/Bite/BitView.cs:39 | `(byte)~m` is 255 - m |
| View.IndexSplit | src/Bite/BitView.cs:19-20 | `index & 7` is the bit in the byte and `index >> 3` the byte of a view index |
| View.ShiftMask | src/Bite/BitView.cs:143-150 | the shifted mask tests, at each position p + 1, what the mask tested at p, and tests false at position 0: the mask moves one bit on in read order |
| View.MaskStep | src/Bite/BitView.cs:143-150 | shifting the mask of position p gives the mask of p + 1, and 0 after the last position |
| View.FirstMask | src/Bite/BitView.cs:162-169 | a freshly loaded byte starts at bit 0: 0x80 under Msb0 and 0x01 under Lsb0 |
| View.LoadedBit | src/Bite/BitView.cs:128 | the bit a mask selects in the loaded byte is the matching stream bit |
| View.SetBitOfByte | src/Bite/BitView.cs:35 | `b \| mask` sets the chosen bit and keeps the others |
| View.ClearBitOfByte | src/Bite/BitView.cs:39 | `b & (byte)~mask` clears the chosen bit and keeps the others |
| View.UpdateStream | src/Bite/BitView.cs:31-40 | a byte that changes only bit `index % 8` changes only stream bit `index` |
| View.ViewExamples | test/Bite.Tests/BitViewTests.cs:8-9 | 03 81 under Lsb0 and C0 81 under Msb0 are both the bits 1100000010000001 |
| RoundTrip.Encoding | test/Bite.Tests/FuzzTests.cs:24-32 | the bits a run of fields writes cover the sum of the field widths |
| RoundTrip.EncodingAt | test/Bite.Tests/FuzzTests.cs:24-32 | field k of an encoding starts after the fields before it and is its own bit pattern |
| RoundTrip.WriteFields | test/Bite.Tests/FuzzTests.cs:24-32 | the write loop appends the encoding of the fields to `Bits()` |
| RoundTrip.ReadFields | test/Bite.Tests/FuzzTests.cs:38-45 | the read loop returns, field after field, the values of the successive stream runs |
| RoundTrip.Reads | test/Bite.Tests/FuzzTests.cs:38-45 | one value per field |
| RoundTrip.ReadsStep | test/Bite.Tests/FuzzTests.cs:38-45 | reading field i extends the values of the fields before it by its own value |
| RoundTrip.ReadsEncoding | test/Bite.Tests/FuzzTests.cs:38-45 | reading a run of fields back from its encoding, whatever follows, gives each value mod 2^width |
| RoundTrip.ReadField | test/Bite.Tests/FuzzTests.cs:42 | one `ReadBits` with enough bits left gives the value of the next n stream bits |
| RoundTrip.FieldsFit | test/Bite.Tests/FuzzTests.cs:38-45 | every field of a run ends within the run |
| RoundTrip.ReadBack | test/Bite.Tests/FuzzTests.cs:37-45 | a reader over bytes whose stream begins with the encoding gives back every value mod 2^width |
| RoundTrip.SmallValuesBack | test/Bite.Tests/FuzzTests.cs:44 | values below 2^width come back exactly |
| RoundTrip.WriteThenRead | test/Bite.Tests/FuzzTests.cs:12-46 | write, pad, flush and read back with the corrected writer gives every value back under either order |
| RoundTrip.WriteFieldsAsWritten | test/Bite.Tests/FuzzTests.cs:24-32 | the code's own write loop under Lsb0 appends the encoding of the fields |
| RoundTrip.FuzzTest | test/Bite.Tests/FuzzTests.cs:12-46 | the fuzz test under the default Lsb0 with the code's own writer: every value comes back |
| Scenarios.ThreeFields | test/Bite.Tests/BitWriterTests.cs:43-45 | three fields merged into one word lay out their patterns in order, in either bit order |
| Scenarios.FewBitsLayout | test/Bite.Tests/BitWriterTests.cs:14-15 | 0x1A under Lsb0 and 0xB0 under Msb0 hold 0b10, 0b110 and three zero bits |
| Scenarios.MultiByteLayout | test/Bite.Tests/BitWriterTests.cs:34-35 | FA CB D1 under Lsb0 and B6 8E 5F under Msb0 hold 0b10, 0b110 and the 19-bit field |
| Scenarios.SameTwentyFourBits | test/Bite.Tests/BitWriterTests.cs:34-35 | the three expected bytes and the three fields are the same 24 bits |
| Scenarios.WriteFewBits | test/Bite.Tests/BitWriterTests.cs:19-29 | writing 2 and 3 bits, padding and flushing fills 3 bits and writes one byte holding the fields |
| Scenarios.CanWriteFewBits | test/Bite.Tests/BitWriterTests.cs:13-31 | the byte written is 0x1A under Lsb0 and 0xB0 under Msb0, and `Pad` returns 3 |
| Scenarios.WriteThreeFields | test/Bite.Tests/BitWriterTests.cs:39-46 | three fields whose widths end on a byte boundary below 32 bits flush to bytes whose stream is their patterns |
| Scenarios.CanWriteBitsInMultipleBytes | test/Bite.Tests/BitWriterTests.cs:33-50 | the bytes written are FA CB D1 under Lsb0 and B6 8E 5F under Msb0 |
| Scenarios.ReadFewBits | test/Bite.Tests/BitReaderTests.cs:15-24 | a fresh reader starts at 0 with 8 bits per byte and reads back two fields, ending at position 5 |
| Scenarios.TestValuesFit | test/Bite.Tests/BitReaderTests.cs:43-45 | the test values 0b10, 0b110 and the 19-bit field fit their widths, so they read back unchanged |
| Scenarios.ThreeFieldsAt | test/Bite.Tests/BitReaderTests.cs:43-45 | each of three consecutive fields reads back as its low bits |
| Scenarios.CanReadFewBits | test/Bite.Tests/BitReaderTests.cs:9-25 | 0x1A under Lsb0 and 0xB0 under Msb0 read 0b10 and 0b110, with `BitCount` 8 and `Position` 0 then 5 |
| Scenarios.ReadThreeFields | test/Bite.Tests/BitReaderTests.cs:35-48 | a chunked source whose stream holds three fields reads them back in turn, ending at position 24 |
| Scenarios.CanReadBitsInMultipleBytes | test/Bite.Tests/BitReaderTests.cs:27-49 | the test bytes, cut into chunks in any way, read 0b10, 0b110 and the 19-bit field |
| Scenarios.CanEnumerateBooleans | test/Bite.Tests/BitReaderTests.cs:51-76 | for every input, the reader's `ToArray` is the `BitArray` of the bytes under Lsb0 and of their bit-reversed bytes under Msb0 |
| Scenarios.AccessAndIterate | test/Bite.Tests/BitViewTests.cs:13-17 | for every buffer, indexing and iterating a view both give the buffer's stream |
| Scenarios.CanAccessAndIterate | test/Bite.Tests/BitViewTests.cs:7-27 | both give 1100000010000001 for the two test buffers |

## Left out

- The `BitArray` branch of `BitView`, the `BitView(BitArray)` constructor and the implicit conversion (src/Bite/BitView.cs:14-17, 25-29, 58-63, 81, 100-111) are not modelled. `BitArray` is not part of this model; `BitUtils.CreateBitArray` returns the array's bits as a sequence.
- `ReadOnlyBitView` is not part of this model.
- `BitView` (src/Bite/BitView.cs:19, 31) calls `BitOrder.GetBitMask`, which BitOrderExtensions.cs does not define. It is modelled as the one-hot mask `GetBit` tests with: `0x80 >> p` under Msb0 and `0x01 << p` under Lsb0.
- The byte sink (`IBufferWriter<byte>`) is a sequence of bytes that `Emit` appends to. `GetSpan` and `Advance` are not modelled separately.
- The reader's source is a sequence of chunks (a `ReadOnlySequence<byte>`). `SequenceReader<byte>` is modelled only as far as the reader uses it: `UnreadSpan`, `Advance` and `End`. Empty chunks are dropped when the reader is made, since `SequenceReader` skips them.
- `Memory<byte>` slices are modelled as a whole array.
- Reader.BitReader.ReadBits, Writer.BitWriter.WriteBits, Writer.BitWriter.WriteBitsAsWritten, Reader.BitReader.TryReadBits: take a width `bitCount: nat` with `bitCount <= 32`. The code takes any `int` and documents no other width. Lsb0 reads and `WriteBits` index `_masks[bitCount]`, so they throw for a negative width or one above 32. Msb0 reads index `_masks[_bitsInBuffer - bitCount]` instead, which stays in range whenever at most 32 bits are left in the accumulator after the read. An Msb0 read of 33 to 63 bits, with enough bits buffered, returns the low 32 of the bits it takes. An Msb0 read of a negative width moves `Position` backwards, e.g. `ReadBits(-1)` on an empty accumulator returns 0 and sets `Position` to -1. Neither behaviour is modelled.
- Reader.BitReader.BitCount: the code computes `8 * (int)Length` in `int`, which wraps once the source reaches 2^28 bytes. The model takes sources, sinks and views to be below 2^28 bytes (2^31 bits) and does not model the wrap.
- Reader.BitReader.ReadBits, Reader.BitReader.TryReadBits: `Position` is an `int` in the code and `Position += bitCount` wraps past 2^31 - 1 bits. The model's `position` is a `nat` that does not wrap.
- Reader.BitReader.ToArray: sizes its array by `BitCount`, that is `8 * (int)Length`, which wraps in the code once the source reaches 2^28 bytes. The model's `BitCount()` is a natural that does not wrap.
- Reader.Enumerator.MoveNext: compares `Position` with `BitCount`, both `int` in the code. The comparison is modelled on naturals, without the wrap past 2^28 source bytes.
- Writer.BitWriter.WrittenBitCount: `8 * _writtenBytes + _bitsInBuffer` is computed in `int` in the code and wraps once 2^28 bytes have been written. The model's count is unbounded.
- View.BitView.Count: `8 * _bytes.Length` is computed in `int` in the code and wraps from 2^28 bytes on. The model's count is unbounded.
- View.BitView.ToArray: sizes its array by `Count`, so it inherits the same wrap in the code. The model does not model it.
- BitOrderExtensions.GetBit, BitOrderExtensions.GetBitMask: require `position < 8`. The code accepts any `int`. C# masks a shift count of an `int` to its low 5 bits, so `0x01 << 32` is 1 and `GetBit(Lsb0, 1, 32)` is true; positions from 8 to 31 give a mask with no bit of the byte and so false. The model covers only positions inside the byte, which are the only ones `BitView` and `CreateBitArray` pass.
- Reader.BitReader.ReadBits: where the code throws `IndexOutOfRangeException`, the model returns `IndexOutOfRange`. Bytes already taken from the source stay buffered, as in the code.
- Writer.BitWriter.Flush: where the code throws `InvalidOperationException`, the model returns false and changes nothing.
- View.BitView.Get, View.BitView.Set: require an index within `Count`. The code throws for an index out of range; the model does not model that exception.
- Reader.BitReader.Reset, Reader.Enumerator.Reset: `Position` is kept, as the code does. After such a reset `Position` no longer counts from the start of the stream. The reader's `Synced()` says when it does, and `ToArray` and `TryReadBits` are specified with both positions.
- Writer.BitWriter.Pad: writes 8 bits when the buffer is already byte-aligned, as the code does.
- Writer.BitWriter.WriteBitsAsWritten: its contract claims the appended bits only under Lsb0, or when no drain happens (see Findings).
- `Dispose` on the enumerators does nothing and is not modelled.
- Several C# methods are split into smaller members with their own contracts:
  - `Ensure` into `Refill` and `Advance`;
  - `ReadBits` into `Ensure` and `Take`;
  - `WriteBits` into `Accumulate` and `Drain`;
  - each `ToArray` into its loop (`Drain`) and one loop turn (`Yield`).
- The recursion of `Ensure` is a loop. It refills until enough bits are buffered or the source is exhausted, as the recursion does.
- RoundTrip.FuzzTest, RoundTrip.WriteThenRead: the random widths and values are a parameter; any widths up to 32 and any values are allowed. The `FakePool` fragmentation of the sink is not modelled: the reader reads the sink as one block. Reading from any chunking is covered by `Scenarios.CanReadBitsInMultipleBytes` and the chunked `Reader.BitReader.constructor`.

## Findings

| source | as written | input that shows it | evidently intended | confidence | as-written member | corrected member |
|---|---|---|---|---|---|---|
| src/Bite/BitWriter.cs:61-66 | Once 32 or more bits are buffered, the writer emits `(uint)_buffer`, the low 32 bits, and keeps `_buffer >> 32`. Under Msb0 the oldest bits are at the top of the accumulator, so this emits the newest bits and keeps the oldest. | Msb0 writer: `WriteBits(31, 0)` then `WriteBits(2, 0b11)`. The accumulator holds 33 bits of value 3. The writer emits 00 00 00 03, whose bit 30 is set, but bit 30 of what was written is one of the 31 zeros. | Under Msb0, emit the top 32 of the buffered bits, `(uint)(_buffer >> (_bitsInBuffer - 32))`, and keep the rest. Under Lsb0 the code is already right. | high, by proof; not executed | Writer.BitWriter.WriteBitsAsWritten, Writer.Msb0DrainAsWritten, Writer.Msb0DrainCounterexample | Writer.BitWriter.WriteBits |
