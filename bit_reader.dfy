/**
 * src/Bite/BitReader.cs: reads fields of up to 32 bits from a possibly
 * fragmented byte source, through a 64-bit accumulator.
 *
 * The accumulator holds `bitsInBuffer` bits that have been taken from the
 * source but not yet handed out. `Valid()` says they are exactly the stream
 * bits between `StreamPos()` (the first bit not yet handed out) and the end of
 * the consumed bytes. `position` is the reader's `Position`; it moves with
 * `StreamPos()` on every read but `Reset` rewinds only the latter, so the
 * model keeps `StreamPos() <= position` and calls the two `Synced` while equal.
 */
module Reader {
  import opened Machine
  import opened Order
  import opened BitFields
  import opened BitOrderExtensions
  import opened BitStream
  import opened BitUtils
  import opened Chunks

  /** What `ReadBits` returns: a value, or the `IndexOutOfRangeException` it throws. */
  datatype ReadBitsResult = Ok(value: uint32) | IndexOutOfRange

  class BitReader {
    /** The source, empty chunks left out. */
    const chunks: seq<seq<byte>>
    const order: BitOrder
    /** The `SequenceReader` cursor: chunk index and offset in that chunk. */
    var chunkIndex: nat
    var offset: nat
    /** The `ulong` accumulator and the number of bits in it. */
    var buffer: nat
    var bitsInBuffer: nat
    /** `Position`: the number of bits handed out. */
    var position: nat

    /** The bytes of the source. */
    function Bytes(): seq<byte>
    {
      Flatten(chunks)
    }

    /** The bits of the source, in read order. */
    function SourceBits(): seq<bool>
    {
      Stream(Bytes(), order)
    }

    /** `BitCount`: the number of bits in the source. */
    function BitCount(): (r: nat)
      ensures r == |SourceBits()|
    {
      8 * |Bytes()|
    }

    predicate Cursor()
      reads this`chunkIndex, this`offset
    {
      (forall i :: 0 <= i < |chunks| ==> chunks[i] != []) &&
      chunkIndex <= |chunks| &&
      (if chunkIndex < |chunks| then offset < |chunks[chunkIndex]| else offset == 0)
    }

    /** The number of bytes the cursor has passed. */
    function Consumed(): nat
      reads this`chunkIndex, this`offset
      requires chunkIndex <= |chunks|
    {
      |Flatten(chunks[..chunkIndex])| + offset
    }

    /** `SequenceReader.UnreadSpan`: the rest of the current chunk. */
    function UnreadSpan(): seq<byte>
      reads this`chunkIndex, this`offset
      requires Cursor()
    {
      if chunkIndex < |chunks| then chunks[chunkIndex][offset..] else []
    }

    /** `SequenceReader.End` */
    predicate End()
      reads this`chunkIndex
    {
      chunkIndex == |chunks|
    }

    /** The stream index of the first bit not yet handed out. */
    function StreamPos(): int
      reads this`chunkIndex, this`offset, this`bitsInBuffer
      requires chunkIndex <= |chunks|
    {
      8 * Consumed() - bitsInBuffer
    }

    /** The accumulator holds the consumed bits not yet handed out (at most 63 of them). */
    predicate Buffered()
      reads this`chunkIndex, this`offset, this`bitsInBuffer, this`buffer
    {
      Cursor() && Consumed() <= |Bytes()| &&
      Holds(SourceBits(), order, StreamPos(), 8 * Consumed(), buffer)
    }

    /** The state between calls. */
    predicate Valid()
      reads this`chunkIndex, this`offset, this`bitsInBuffer, this`buffer, this`position
    {
      Buffered() && bitsInBuffer <= 31 && StreamPos() <= position
    }

    /** `Position` counts from the start of the stream; false after `Reset` once bits were read. */
    predicate Synced()
      reads this`chunkIndex, this`offset, this`bitsInBuffer, this`position
      requires chunkIndex <= |chunks|
    {
      position == StreamPos()
    }

    /** The reader over a sequence of chunks. */
    constructor (sequence: seq<seq<byte>>, bitOrder: BitOrder)
      ensures Valid() && Synced()
      ensures Bytes() == Flatten(sequence) && order == bitOrder
      ensures position == 0 && StreamPos() == 0
    {
      chunks := NonEmpty(sequence);
      order := bitOrder;
      chunkIndex, offset := 0, 0;
      buffer, bitsInBuffer := 0, 0;
      position := 0;
      new;
      assert chunks[..0] == [];
    }

    /** The reader over one contiguous block of bytes. */
    constructor FromBytes(bytes: seq<byte>, bitOrder: BitOrder)
      ensures Valid() && Synced()
      ensures Bytes() == bytes && order == bitOrder
      ensures position == 0 && StreamPos() == 0
    {
      chunks := NonEmpty([bytes]);
      order := bitOrder;
      chunkIndex, offset := 0, 0;
      buffer, bitsInBuffer := 0, 0;
      position := 0;
      new;
      FlattenSingle(bytes);
      assert chunks[..0] == [];
    }

    /** A copy of another reader's state, as the struct copy the enumerator takes. */
    constructor Copy(other: BitReader)
      requires other.Valid()
      ensures Valid() && SameState(other)
    {
      chunks := other.chunks;
      order := other.order;
      chunkIndex, offset := other.chunkIndex, other.offset;
      buffer, bitsInBuffer := other.buffer, other.bitsInBuffer;
      position := other.position;
    }

    predicate SameState(other: BitReader)
      reads this, other
    {
      chunks == other.chunks && order == other.order &&
      chunkIndex == other.chunkIndex && offset == other.offset &&
      buffer == other.buffer && bitsInBuffer == other.bitsInBuffer &&
      position == other.position
    }

    /** Where the cursor stands in the flattened source. */
    lemma CursorFacts()
      requires Cursor()
      ensures Consumed() + |UnreadSpan()| <= |Bytes()|
      ensures UnreadSpan() == Bytes()[Consumed() .. Consumed() + |UnreadSpan()|]
      ensures End() <==> Consumed() == |Bytes()|
      ensures !End() ==> |UnreadSpan()| > 0
    {
      var k := chunkIndex;
      FlattenSplit(chunks, k);
      if k < |chunks| {
        FlattenFrom(chunks, k);
      } else {
        assert chunks[..k] == chunks;
      }
    }

    /** `SequenceReader.Advance` by at most the rest of the current chunk. */
    method Advance(count: nat)
      requires Cursor() && count <= |UnreadSpan()|
      modifies this
      ensures Cursor() && Consumed() == old(Consumed()) + count
      ensures buffer == old(buffer) && bitsInBuffer == old(bitsInBuffer) && position == old(position)
    {
      if count > 0 {
        offset := offset + count;
        if offset == |chunks[chunkIndex]| {
          FlattenStep(chunks, chunkIndex);
          chunkIndex := chunkIndex + 1;
          offset := 0;
        }
      }
    }

    /**
     * One step of `Ensure`: read the next run of up to four bytes of the
     * current chunk and merge it below (Msb0) or above (Lsb0) the buffered bits.
     */
    method Refill()
      requires Buffered() && bitsInBuffer < 32
      modifies this
      ensures Buffered()
      ensures var c := old(if |UnreadSpan()| < 4 then |UnreadSpan()| else 4);
        Consumed() == old(Consumed()) + c && bitsInBuffer == old(bitsInBuffer) + 8 * c
      ensures StreamPos() == old(StreamPos()) && position == old(position)
    {
      CursorFacts();
      ghost var start, before, held, bits := StreamPos(), Consumed(), buffer, bitsInBuffer;
      var span := UnreadSpan();
      var r := Read(order, span);
      Advance(r.consumed);
      var bitCount := 8 * r.consumed;
      ReadRun(SourceBits(), Bytes(), order, before, span, r.consumed, r.value, 8 * Consumed());
      buffer := Merge(order, buffer, bitsInBuffer, bitCount, r.value);
      bitsInBuffer := bitsInBuffer + bitCount;
      RefillStep(SourceBits(), order, start, 8 * before, 8 * Consumed(), held, bits, r.value, bitCount, buffer, StreamPos());
    }

    /**
     * `Ensure`: refill until at least `required` bits are buffered. The first
     * refill is unconditional; each further one is preceded by the `End` check
     * that throws. `ok` is false where the C# code throws.
     */
    method Ensure(required: nat) returns (ok: bool)
      requires Valid() && required <= 32
      modifies this
      ensures Buffered() && StreamPos() == old(StreamPos()) && position == old(position)
      ensures ok == (old(StreamPos()) + required <= BitCount())
      ensures ok ==> required <= bitsInBuffer < required + 32
      ensures !ok ==> bitsInBuffer < required && Consumed() == |Bytes()|
    {
      if required <= bitsInBuffer {
        return true;
      }
      Refill();
      while required > bitsInBuffer
        invariant Buffered() && StreamPos() == old(StreamPos()) && position == old(position)
        invariant bitsInBuffer < required + 32
        decreases |Bytes()| - Consumed()
      {
        CursorFacts();
        if End() {
          return false;
        }
        Refill();
      }
      return true;
    }

    /**
     * `ReadBits`: the next n bits, from the top of the accumulator under Msb0
     * and from the bottom under Lsb0. The value's bits in read order are the
     * next n stream bits. When the source runs out first the result is
     * `IndexOutOfRange`; the bytes read so far stay buffered and `Position`
     * does not move.
     */
    method ReadBits(n: nat) returns (r: ReadBitsResult)
      requires Valid() && n <= 32
      modifies this
      ensures Valid()
      ensures old(StreamPos()) + n <= BitCount() ==> (r.Ok? && r.value < Pow2(n) &&
        r.value == FieldValue(order, SourceBits()[old(StreamPos()) .. old(StreamPos()) + n]) &&
        StreamPos() == old(StreamPos()) + n && position == old(position) + n)
      ensures old(StreamPos()) + n > BitCount() ==> (r == IndexOutOfRange &&
        StreamPos() == old(StreamPos()) && position == old(position) && Consumed() == |Bytes()|)
    {
      var ok := Ensure(n);
      if !ok {
        assert Valid();
        return IndexOutOfRange;
      }
      var value := Take(n);
      r := Ok(value);
    }

    /**
     * The rest of `ReadBits` once `Ensure` has buffered n bits: under Msb0
     * the value is `(uint)(buffer >> remaining)` and the buffer keeps
     * `buffer & masks[remaining]`; under Lsb0 the value is
     * `(uint)buffer & masks[n]` and the buffer keeps `buffer >> n`.
     */
    method Take(n: nat) returns (value: uint32)
      requires Buffered() && n <= 32 && n <= bitsInBuffer < n + 32 && StreamPos() <= position
      modifies this
      ensures Valid()
      ensures value < Pow2(n) && value == FieldValue(order, SourceBits()[old(StreamPos()) .. old(StreamPos()) + n])
      ensures StreamPos() == old(StreamPos()) + n && position == old(position) + n
    {
      ghost var end, held := 8 * Consumed(), buffer;
      var newBitsInBuffer := bitsInBuffer - n;
      if order == Msb0 {
        value := UInt32(Shr(buffer, newBitsInBuffer));
        buffer := And(buffer, Mask(newBitsInBuffer));
      } else {
        AndBelow(UInt32(buffer), Mask(n));
        value := And(UInt32(buffer), Mask(n));
        buffer := Shr(buffer, n);
      }
      bitsInBuffer := newBitsInBuffer;
      position := position + n;
      TakeStep(SourceBits(), order, old(StreamPos()), end, held, n, newBitsInBuffer, value, buffer, StreamPos());
    }

    /**
     * `TryReadBits`: false with value 0 and no change when fewer than n bits
     * remain after `Position`; otherwise `ReadBits`, which then cannot throw
     * because `StreamPos() <= position`.
     */
    method TryReadBits(n: nat) returns (ok: bool, value: uint32)
      requires Valid() && n <= 32
      modifies this
      ensures Valid()
      ensures ok == (old(position) + n <= BitCount())
      ensures !ok ==> value == 0 && unchanged(this)
      ensures ok ==> (value < Pow2(n) &&
        value == FieldValue(order, SourceBits()[old(StreamPos()) .. old(StreamPos()) + n]) &&
        StreamPos() == old(StreamPos()) + n && position == old(position) + n)
    {
      if position + n > BitCount() {
        return false, 0;
      }
      var r := ReadBits(n);
      return true, r.value;
    }

    /**
     * `Reset`: back to the start of the source with an empty accumulator.
     * `Position` is left as it was.
     */
    method Reset()
      requires Valid()
      modifies this
      ensures Valid() && StreamPos() == 0
      ensures chunkIndex == 0 && offset == 0 && buffer == 0 && bitsInBuffer == 0
      ensures position == old(position)
    {
      chunkIndex, offset := 0, 0;
      buffer, bitsInBuffer := 0, 0;
      assert chunks[..0] == [];
    }

    /**
     * `ToArray`: an array of `BitCount` flags filled from an enumerator over a
     * copy of this reader, so this reader does not change. The copy yields
     * until its `Position` reaches `BitCount`: the first `BitCount - position`
     * entries are the stream bits from `StreamPos()` on and the rest stay false.
     */
    method ToArray() returns (bits: array<bool>)
      requires Valid()
      ensures fresh(bits) && bits.Length == BitCount()
      ensures forall i :: 0 <= i < bits.Length ==>
        bits[i] == (position + i < BitCount() && SourceBits()[StreamPos() + i])
    {
      bits := new bool[BitCount()](_ => false);
      var e := new Enumerator(this);
      Drain(e, bits);
    }
  }

  /**
   * The `foreach` of `ToArray`: each bit the enumerator yields goes to the
   * next entry of the array, from entry 0 on.
   */
  method Drain(e: Enumerator, bits: array<bool>)
    requires e.reader.Valid() && bits.Length == e.reader.BitCount()
    requires forall k :: 0 <= k < bits.Length ==> !bits[k]
    modifies e, e.reader, bits
    ensures forall i :: 0 <= i < bits.Length ==>
      bits[i] == (old(e.reader.position) + i < bits.Length && e.reader.SourceBits()[old(e.reader.StreamPos()) + i])
  {
    ghost var source, start, base := e.reader.SourceBits(), e.reader.StreamPos(), e.reader.position;
    var index := 0;
    while true
      invariant e.reader.Valid()
      invariant index == 0 || base + index <= bits.Length
      invariant e.reader.position == base + index
      invariant e.reader.StreamPos() == start + index
      invariant forall k :: 0 <= k < bits.Length ==> bits[k] == (k < index && source[start + k])
      decreases bits.Length - index
    {
      var more := Yield(e, bits, index);
      if !more {
        break;
      }
      index := index + 1;
    }
  }

  /** One turn of the `foreach` in `ToArray`: the next bit, if there is one, goes to entry `index`. */
  method Yield(e: Enumerator, bits: array<bool>, index: nat) returns (more: bool)
    requires e.reader.Valid() && bits.Length == e.reader.BitCount() && index <= e.reader.position
    modifies e, e.reader, bits
    ensures e.reader.Valid()
    ensures more == (old(e.reader.position) + 1 <= bits.Length)
    ensures more ==> (index < bits.Length && bits[index] == e.reader.SourceBits()[old(e.reader.StreamPos())] &&
      e.reader.StreamPos() == old(e.reader.StreamPos()) + 1 && e.reader.position == old(e.reader.position) + 1)
    ensures !more ==> unchanged(e.reader)
    ensures forall k :: 0 <= k < bits.Length && (k != index || !more) ==> bits[k] == old(bits[k])
  {
    more := e.MoveNext();
    if more {
      bits[index] := e.current;
    }
  }

  /**
   * The accumulator invariant over plain values: `buffer` is the value, in
   * read order, of the stream bits from index `start` up to index `end`.
   */
  predicate Holds(source: seq<bool>, order: BitOrder, start: int, end: int, buffer: nat)
  {
    0 <= start <= end <= |source| && end - start <= 63 && buffer == FieldValue(order, source[start .. end])
  }

  /**
   * A refill keeps the accumulator coherent: merging the value of the run of
   * stream bits from `mid` to `end` into the held bits from `start` to `mid`
   * gives the value of all the bits from `start` to `end`.
   */
  lemma RefillStep(s: seq<bool>, order: BitOrder, start: int, mid: int, end: int, held: nat, bits: nat,
                   value: nat, count: nat, merged: nat, start': int)
    requires Holds(s, order, start, mid, held) && bits == mid - start
    requires mid <= end <= |s| && count == end - mid && end - start <= 63
    requires value == FieldValue(order, s[mid .. end])
    requires merged == Merge(order, held, bits, count, value) && start' == start
    ensures Holds(s, order, start', end, merged)
  {
    SliceJoin(s, start, mid, end);
    MergeFields(order, s[start .. mid], s[mid .. end]);
  }

  /** The word `Read` takes from the unread span is the value of the next stream bits of the source. */
  lemma ReadRun(s: seq<bool>, bytes: seq<byte>, order: BitOrder, before: nat, span: seq<byte>, c: nat, value: nat, end: int)
    requires s == Stream(bytes, order)
    requires before + |span| <= |bytes| && span == bytes[before .. before + |span|]
    requires c == Read(order, span).consumed && value == Read(order, span).value
    requires end == 8 * (before + c)
    ensures 8 * before <= end <= |s| && value == FieldValue(order, s[8 * before .. end])
  {
    ReadField(order, span);
    var run := RunBits(bytes, order, before, span, c);
  }

  /** The stream bits of the first c bytes of the span are the stream bits of those bytes in the source. */
  lemma RunBits(bytes: seq<byte>, order: BitOrder, before: nat, span: seq<byte>, c: nat) returns (run: seq<bool>)
    requires before + |span| <= |bytes| && span == bytes[before .. before + |span|] && c <= |span|
    ensures run == Stream(span[..c], order) == Stream(bytes, order)[8 * before .. 8 * (before + c)]
  {
    assert span[..c] == bytes[before .. before + c] by {
      SliceOfSlice(bytes, before, before + |span|, c);
    }
    StreamSlice(bytes, order, before, before + c);
    run := Stream(span[..c], order);
  }

  /** The first n and the rest of a slice are slices themselves. */
  lemma SliceOfSlice<T>(s: seq<T>, i: nat, j: nat, n: nat)
    requires i + n <= j <= |s|
    ensures s[i .. j][..n] == s[i .. i + n] && s[i .. j][n..] == s[i + n .. j]
  {
  }

  /**
   * `ReadBits` keeps the accumulator coherent: taking n bits from the top
   * (Msb0) or the bottom (Lsb0) of the held bits from `start` to `end` yields
   * the value of the n bits from `start` and leaves the value of the rest.
   */
  lemma TakeStep(source: seq<bool>, order: BitOrder, start: int, end: int, held: nat, n: nat, kept: nat,
                 value: nat, rest: nat, next: int)
    requires Holds(source, order, start, end, held) && n + kept == end - start && n <= 32
    requires order == Msb0 ==> value == UInt32(Shr(held, kept)) && rest == And(held, Mask(kept))
    requires order == Lsb0 ==> value == And(UInt32(held), Mask(n)) && rest == Shr(held, n)
    requires next == start + n
    ensures value < Pow2(n) && value == FieldValue(order, source[start .. start + n])
    ensures Holds(source, order, next, end, rest)
  {
    var whole := source[start .. end];
    SliceOfSlice(source, start, end, n);
    FieldValueBound(order, source[start .. start + n]);
    if order == Msb0 {
      TakeTop(whole, n, kept, held);
    } else {
      TakeBottom(whole, n, held);
    }
  }

  /**
   * `ReadBits` under Msb0 on the held bits: `(uint)(buffer >> m)`, m the
   * number left over, is the value of the first n held bits and
   * `buffer & masks[m]` the value of the other m.
   */
  lemma TakeTop(held: seq<bool>, n: nat, kept: nat, buffer: nat)
    requires n + kept == |held| && n <= 32 && buffer == FieldValue(Msb0, held)
    ensures UInt32(Shr(buffer, kept)) == FieldValue(Msb0, held[..n])
    ensures And(buffer, Mask(kept)) == FieldValue(Msb0, held[n..])
  {
    assert held == held[..n] + held[n..];
    FieldValueAppendMsb0(held[..n], held[n..]);
    FieldValueBound(Msb0, held[..n]);
    FieldValueBound(Msb0, held[n..]);
    HighAndLow(buffer, n, kept, FieldValue(Msb0, held[..n]), FieldValue(Msb0, held[n..]));
  }

  /**
   * `ReadBits` under Lsb0 on the held bits: `(uint)buffer & masks[n]` is the
   * value of the first n held bits and `buffer >> n` the value of the rest.
   */
  lemma TakeBottom(held: seq<bool>, n: nat, buffer: nat)
    requires n <= |held| && n <= 32 && buffer == FieldValue(Lsb0, held)
    ensures And(UInt32(buffer), Mask(n)) == FieldValue(Lsb0, held[..n]) < UINT32_LIMIT
    ensures Shr(buffer, n) == FieldValue(Lsb0, held[n..])
  {
    assert held == held[..n] + held[n..];
    FieldValueAppendLsb0(held[..n], held[n..]);
    FieldValueBound(Lsb0, held[..n]);
    LowAndHigh(buffer, n, FieldValue(Lsb0, held[..n]), FieldValue(Lsb0, held[n..]));
  }

  /** A one-bit field is 1 exactly when its bit is set. */
  lemma OneBit(order: BitOrder, s: seq<bool>)
    requires |s| == 1
    ensures FieldValue(order, s) == (if s[0] then 1 else 0)
  {
    assert s[1..] == [] && s[..0] == [];
  }

  /**
   * `BitReader.Enumerator`: holds its own copy of the reader and steps it one
   * bit at a time with `TryReadBits(1)`.
   */
  class Enumerator {
    const reader: BitReader
    /** `Current` */
    var current: bool

    constructor (source: BitReader)
      requires source.Valid()
      ensures fresh(reader) && reader.Valid() && reader.SameState(source)
      ensures reader.SourceBits() == source.SourceBits() && reader.BitCount() == source.BitCount()
      ensures reader.StreamPos() == source.StreamPos() && reader.position == source.position
      ensures !current
    {
      reader := new BitReader.Copy(source);
      current := false;
    }

    /** `MoveNext`: the next bit, while one remains after the copy's `Position`. */
    method MoveNext() returns (more: bool)
      requires reader.Valid()
      modifies this, reader
      ensures reader.Valid()
      ensures more == (old(reader.position) + 1 <= reader.BitCount())
      ensures more ==> (current == reader.SourceBits()[old(reader.StreamPos())] &&
        reader.position == old(reader.position) + 1 && reader.StreamPos() == old(reader.StreamPos()) + 1)
      ensures !more ==> !current && unchanged(reader)
    {
      ghost var start := reader.StreamPos();
      var ok, value := reader.TryReadBits(1);
      if ok {
        OneBit(reader.order, reader.SourceBits()[start .. start + 1]);
      }
      current := value != 0;
      return ok;
    }

    /** `Reset`: `Current` back to false and the copy rewound (its `Position` kept). */
    method Reset()
      requires reader.Valid()
      modifies this, reader
      ensures reader.Valid() && reader.StreamPos() == 0 && reader.position == old(reader.position)
      ensures !current
    {
      current := false;
      reader.Reset();
    }
  }
}
