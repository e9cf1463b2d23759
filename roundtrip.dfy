/**
 * Writing fields with a `BitWriter`, padding and flushing it, and reading the
 * same field widths back with a `BitReader` over the written bytes gives each
 * field's value back (its low `count` bits): the property the fuzz test
 * exercises (test/Bite.Tests/FuzzTests.cs). `FuzzTest` is that test as the
 * repository runs it, with the C# code's own writer under the default Lsb0;
 * `WriteThenRead` is the same under either order with the corrected writer.
 *
 * `Encoding` is the bit sequence a run of fields writes and `Reads` the
 * values a run of field widths reads from a bit sequence; `ReadsEncoding`
 * says that reading undoes writing.
 */
module RoundTrip {
  import opened Machine
  import opened Order
  import opened BitFields
  import opened BitStream
  import Writer
  import Reader

  /** One `WriteBits(count, value)` call. */
  datatype Field = Field(count: nat, value: uint32)

  /** The number of bits a run of fields covers. */
  function Total(fields: seq<Field>): nat
  {
    if fields == [] then 0 else Total(fields[..|fields| - 1]) + fields[|fields| - 1].count
  }

  /** The bits a run of fields writes: each field's low `count` bits, in order. */
  function Encoding(order: BitOrder, fields: seq<Field>): (r: seq<bool>)
    ensures |r| == Total(fields)
  {
    if fields == [] then []
    else
      var last := fields[|fields| - 1];
      Encoding(order, fields[..|fields| - 1]) + ToBits(order, last.count, last.value)
  }

  /** Field k of a run's encoding starts after the fields before it and is its bit pattern. */
  lemma {:induction false} EncodingAt(order: BitOrder, fields: seq<Field>, tail: seq<bool>, k: nat)
    requires k < |fields|
    ensures Total(fields[..k]) + fields[k].count <= Total(fields)
    ensures var from := Total(fields[..k]);
      (Encoding(order, fields) + tail)[from .. from + fields[k].count] == ToBits(order, fields[k].count, fields[k].value)
  {
    var n := |fields| - 1;
    var init, last := fields[..n], fields[n];
    var head, field := Encoding(order, init), ToBits(order, last.count, last.value);
    assert Encoding(order, fields) + tail == head + (field + tail) by {
      AppendAssoc(head, field, tail);
    }
    if k == n {
      assert fields[..k] == init;
    } else {
      assert fields[..k] == init[..k] && fields[k] == init[k];
      EncodingAt(order, init, field + tail, k);
    }
  }

  /** The write loop of the fuzz test: one `WriteBits` per field. */
  method WriteFields(writer: Writer.BitWriter, fields: seq<Field>)
    requires writer.Valid() && forall i :: 0 <= i < |fields| ==> fields[i].count <= 32
    modifies writer
    ensures writer.Valid()
    ensures writer.Bits() == old(writer.Bits()) + Encoding(writer.order, fields)
  {
    var i := 0;
    while i < |fields|
      invariant i <= |fields| && writer.Valid()
      invariant writer.Bits() == old(writer.Bits()) + Encoding(writer.order, fields[..i])
    {
      writer.WriteBits(fields[i].count, fields[i].value);
      assert fields[..i + 1][..i] == fields[..i];
      AppendAssoc(old(writer.Bits()), Encoding(writer.order, fields[..i]), ToBits(writer.order, fields[i].count, fields[i].value));
      i := i + 1;
    }
    assert fields[..i] == fields;
  }

  /**
   * The read loop of the fuzz test: one `ReadBits` per field width. Value k
   * is read from the run of stream bits that follows the widths before it.
   */
  method ReadFields(reader: Reader.BitReader, fields: seq<Field>) returns (values: seq<nat>)
    requires reader.Valid() && forall i :: 0 <= i < |fields| ==> fields[i].count <= 32
    requires reader.StreamPos() + Total(fields) <= reader.BitCount()
    modifies reader
    ensures reader.Valid()
    ensures values == Reads(reader.order, reader.SourceBits(), old(reader.StreamPos()), fields)
  {
    ghost var start, source := reader.StreamPos(), reader.SourceBits();
    ghost var expected := Reads(reader.order, source, start, fields);
    values := [];
    var i := 0;
    while i < |fields|
      invariant i <= |fields| && reader.Valid() && reader.SourceBits() == source
      invariant start + Total(fields[..i]) <= |source|
      invariant reader.StreamPos() == start + Total(fields[..i])
      invariant values == expected[..i]
    {
      TotalPrefix(fields, i + 1);
      TotalStep(fields, i);
      var value := ReadField(reader, fields[i].count);
      ReadsStep(reader.order, source, start, fields, i, value);
      values := values + [value];
      i := i + 1;
    }
    assert expected[..i] == expected;
  }

  /** Reading field i appends its value to the values of the fields before it. */
  lemma ReadsStep(order: BitOrder, bits: seq<bool>, start: nat, fields: seq<Field>, i: nat, value: nat)
    requires i < |fields| && start + Total(fields) <= |bits|
    requires start + Total(fields[..i]) + fields[i].count <= |bits|
    requires value == FieldValue(order, bits[start + Total(fields[..i]) .. start + Total(fields[..i]) + fields[i].count])
    ensures Reads(order, bits, start, fields)[..i] + [value] == Reads(order, bits, start, fields)[..i + 1]
  {
  }

  /** The values read from `bits`, from index `start` on, one run of each field's width in turn. */
  function Reads(order: BitOrder, bits: seq<bool>, start: nat, fields: seq<Field>): (r: seq<nat>)
    requires start + Total(fields) <= |bits|
    ensures |r| == |fields|
  {
    FieldsFit(fields);
    seq(|fields|, k requires 0 <= k < |fields| => FieldValue(order, Run(bits, start, fields, k)))
  }

  /** The stream bits field k of a run is read from, when the run starts at `start`. */
  function Run(bits: seq<bool>, start: nat, fields: seq<Field>, k: nat): seq<bool>
    requires k < |fields| && start + Total(fields[..k]) + fields[k].count <= |bits|
  {
    bits[start + Total(fields[..k]) .. start + Total(fields[..k]) + fields[k].count]
  }

  /** Reading a run of fields back from their encoding, whatever follows it, gives their values. */
  lemma ReadsEncoding(order: BitOrder, fields: seq<Field>, tail: seq<bool>)
    ensures forall k :: 0 <= k < |fields| ==>
      Reads(order, Encoding(order, fields) + tail, 0, fields)[k] == fields[k].value % Pow2(fields[k].count)
  {
    forall k | 0 <= k < |fields|
      ensures Reads(order, Encoding(order, fields) + tail, 0, fields)[k] == fields[k].value % Pow2(fields[k].count)
    {
      var bits := Encoding(order, fields) + tail;
      var field := ToBits(order, fields[k].count, fields[k].value);
      EncodingAt(order, fields, tail, k);
      assert Run(bits, 0, fields, k) == field;
      FieldValueOfToBits(order, fields[k].count, fields[k].value);
      assert Reads(order, bits, 0, fields)[k] == FieldValue(order, field);
    }
  }

  /** One `ReadBits` of the read loop, when the source holds enough bits for it. */
  method ReadField(reader: Reader.BitReader, n: nat) returns (value: nat)
    requires reader.Valid() && n <= 32 && reader.StreamPos() + n <= reader.BitCount()
    modifies reader
    ensures reader.Valid() && reader.StreamPos() == old(reader.StreamPos()) + n
    ensures value == FieldValue(reader.order, reader.SourceBits()[old(reader.StreamPos()) .. old(reader.StreamPos()) + n])
  {
    var r := reader.ReadBits(n);
    value := r.value;
  }

  /** Every field of a run ends within the run. */
  lemma FieldsFit(fields: seq<Field>)
    ensures forall k :: 0 <= k < |fields| ==> Total(fields[..k]) + fields[k].count <= Total(fields)
  {
    forall k | 0 <= k < |fields|
      ensures Total(fields[..k]) + fields[k].count <= Total(fields)
    {
      TotalStep(fields, k);
      TotalPrefix(fields, k + 1);
    }
  }

  /** One more field covers its width more bits. */
  lemma TotalStep(fields: seq<Field>, i: nat)
    requires i < |fields|
    ensures Total(fields[..i + 1]) == Total(fields[..i]) + fields[i].count
  {
    assert fields[..i + 1][..i] == fields[..i];
  }

  /** A run of fields covers at least as many bits as any of its prefixes. */
  lemma {:induction false} TotalPrefix(fields: seq<Field>, k: nat)
    requires k <= |fields|
    ensures Total(fields[..k]) <= Total(fields)
    decreases |fields|
  {
    if k < |fields| {
      var n := |fields| - 1;
      assert fields[..n][..k] == fields[..k];
      TotalPrefix(fields[..n], k);
    } else {
      assert fields[..k] == fields;
    }
  }

  /**
   * The read half of the fuzz test, over any bytes whose stream starts with
   * the encoding of the fields: each value comes back as its low `count` bits.
   */
  method ReadBack(order: BitOrder, bytes: seq<byte>, fields: seq<Field>, ghost tail: seq<bool>) returns (values: seq<nat>)
    requires forall i :: 0 <= i < |fields| ==> fields[i].count <= 32
    requires Stream(bytes, order) == Encoding(order, fields) + tail
    ensures |values| == |fields|
    ensures forall i :: 0 <= i < |fields| ==> values[i] == fields[i].value % Pow2(fields[i].count)
  {
    var reader := new Reader.BitReader.FromBytes(bytes, order);
    values := ReadFields(reader, fields);
    ReadsEncoding(order, fields, tail);
  }

  /** A value below 2^count is its own low `count` bits, so it comes back unchanged. */
  lemma SmallValuesBack(fields: seq<Field>, values: seq<nat>)
    requires |values| == |fields|
    requires forall i :: 0 <= i < |fields| ==> values[i] == fields[i].value % Pow2(fields[i].count)
    ensures (forall i :: 0 <= i < |fields| ==> fields[i].value < Pow2(fields[i].count)) ==>
      forall i :: 0 <= i < |fields| ==> values[i] == fields[i].value
  {
    forall k | 0 <= k < |fields| && fields[k].value < Pow2(fields[k].count)
      ensures fields[k].value % Pow2(fields[k].count) == fields[k].value
    {
      LowBitsOfSmall(fields[k].value, fields[k].count);
    }
  }

  /**
   * Write the fields, `Pad`, `Flush`, then read every field width back from
   * the written bytes, under either order: each value comes back as its low
   * `count` bits, so a value below 2^count comes back unchanged. The writer
   * is the corrected one.
   */
  method WriteThenRead(order: BitOrder, fields: seq<Field>) returns (values: seq<nat>)
    requires forall i :: 0 <= i < |fields| ==> fields[i].count <= 32
    ensures |values| == |fields|
    ensures forall i :: 0 <= i < |fields| ==> values[i] == fields[i].value % Pow2(fields[i].count)
    ensures (forall i :: 0 <= i < |fields| ==> fields[i].value < Pow2(fields[i].count)) ==>
      forall i :: 0 <= i < |fields| ==> values[i] == fields[i].value
  {
    var writer := new Writer.BitWriter(order);
    WriteFields(writer, fields);
    assert writer.Bits() == Encoding(order, fields);
    var padding := writer.Pad();
    var flushed := writer.Flush();
    assert Stream(writer.sink, order) == Encoding(order, fields) + ToBits(order, padding, 0);
    values := ReadBack(order, writer.sink, fields, ToBits(order, padding, 0));
    SmallValuesBack(fields, values);
  }

  /** The write loop of the fuzz test with the C# code's own `WriteBits`, under Lsb0. */
  method WriteFieldsAsWritten(writer: Writer.BitWriter, fields: seq<Field>)
    requires writer.Valid() && writer.order == Lsb0 && forall i :: 0 <= i < |fields| ==> fields[i].count <= 32
    modifies writer
    ensures writer.Valid()
    ensures writer.Bits() == old(writer.Bits()) + Encoding(Lsb0, fields)
  {
    var i := 0;
    while i < |fields|
      invariant i <= |fields| && writer.Valid()
      invariant writer.Bits() == old(writer.Bits()) + Encoding(Lsb0, fields[..i])
    {
      writer.WriteBitsAsWritten(fields[i].count, fields[i].value);
      assert fields[..i + 1][..i] == fields[..i];
      AppendAssoc(old(writer.Bits()), Encoding(Lsb0, fields[..i]), ToBits(Lsb0, fields[i].count, fields[i].value));
      i := i + 1;
    }
    assert fields[..i] == fields;
  }

  /**
   * The fuzz test as the repository runs it: the writer and the reader take
   * their default order, Lsb0, and the writer is the C# code's own, whose
   * drain is right under that order. Every value comes back as its low
   * `count` bits.
   */
  method FuzzTest(fields: seq<Field>) returns (values: seq<nat>)
    requires forall i :: 0 <= i < |fields| ==> fields[i].count <= 32
    ensures |values| == |fields|
    ensures forall i :: 0 <= i < |fields| ==> values[i] == fields[i].value % Pow2(fields[i].count)
    ensures (forall i :: 0 <= i < |fields| ==> fields[i].value < Pow2(fields[i].count)) ==>
      forall i :: 0 <= i < |fields| ==> values[i] == fields[i].value
  {
    var writer := new Writer.BitWriter(Lsb0);
    WriteFieldsAsWritten(writer, fields);
    assert writer.Bits() == Encoding(Lsb0, fields);
    var padding := writer.Pad();
    var flushed := writer.Flush();
    assert Stream(writer.sink, Lsb0) == Encoding(Lsb0, fields) + ToBits(Lsb0, padding, 0);
    values := ReadBack(Lsb0, writer.sink, fields, ToBits(Lsb0, padding, 0));
    SmallValuesBack(fields, values);
  }
}
