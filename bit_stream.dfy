/**
 * The bit stream of a byte sequence: byte after byte, each byte's eight bits
 * in read order (from 0x01 up under Lsb0, from 0x80 down under Msb0). Bit i of
 * the stream is bit i % 8 of byte i / 8. Readers, writers and views are all
 * specified against this sequence.
 */
module BitStream {
  import opened Machine
  import opened Order
  import opened BitFields
  import opened Endian
  import opened BitOrderExtensions

  /** The eight bits of one byte in read order: its 8-bit pattern. */
  function ByteBits(b: byte, order: BitOrder): (r: seq<bool>)
    ensures |r| == 8
  {
    ToBits(order, 8, b)
  }

  function Stream(bytes: seq<byte>, order: BitOrder): (r: seq<bool>)
    ensures |r| == 8 * |bytes|
  {
    if bytes == [] then [] else ByteBits(bytes[0], order) + Stream(bytes[1..], order)
  }


  /** Bit r of byte q's pattern sits at index 8q + r of the stream. */
  lemma {:induction false} StreamBits(bytes: seq<byte>, order: BitOrder, q: nat, r: nat)
    requires q < |bytes| && r < 8
    ensures Stream(bytes, order)[8 * q + r] == ByteBits(bytes[q], order)[r]
  {
    var rest := Stream(bytes[1..], order);
    assert Stream(bytes, order) == ByteBits(bytes[0], order) + rest;
    if q > 0 {
      StreamBits(bytes[1..], order, q - 1, r);
      assert Stream(bytes, order)[8 * q + r] == rest[8 * (q - 1) + r];
    }
  }

  /** Bit i of the stream is `GetBit` of byte i / 8 at position i % 8. */
  lemma StreamAt(bytes: seq<byte>, order: BitOrder, i: nat)
    requires i < 8 * |bytes|
    ensures Stream(bytes, order)[i] == GetBit(order, bytes[i / 8], i % 8)
  {
    StreamBits(bytes, order, i / 8, i % 8);
    GetBitMeaning(order, bytes[i / 8], i % 8);
  }

  lemma {:induction false} StreamAppend(a: seq<byte>, b: seq<byte>, order: BitOrder)
    ensures Stream(a + b, order) == Stream(a, order) + Stream(b, order)
  {
    if a == [] {
      assert a + b == b;
    } else {
      var head := ByteBits(a[0], order);
      assert Stream(a + b, order) == head + Stream(a[1..] + b, order) by {
        assert (a + b)[0] == a[0] && (a + b)[1..] == a[1..] + b;
      }
      StreamAppend(a[1..], b, order);
      assert Stream(a, order) == head + Stream(a[1..], order);
    }
  }

  lemma StreamOfByte(b: byte, order: BitOrder)
    ensures Stream([b], order) == ToBits(order, 8, b)
  {
    assert [b][1..] == [];
  }

  /** The stream of a slice is the matching slice of the stream. */
  lemma StreamSlice(bytes: seq<byte>, order: BitOrder, i: nat, j: nat)
    requires i <= j <= |bytes|
    ensures Stream(bytes[i..j], order) == Stream(bytes, order)[8 * i .. 8 * j]
  {
    assert bytes == bytes[..i] + bytes[i..j] + bytes[j..];
    StreamAppend(bytes[..i] + bytes[i..j], bytes[j..], order);
    StreamAppend(bytes[..i], bytes[i..j], order);
  }

  /** A byte sequence is determined by its stream. */
  lemma {:induction false} StreamInjective(a: seq<byte>, b: seq<byte>, order: BitOrder)
    requires |a| == |b| && Stream(a, order) == Stream(b, order)
    ensures a == b
  {
    if a != [] {
      SameHead(order, a[0], b[0], Stream(a[1..], order), Stream(b[1..], order));
      StreamInjective(a[1..], b[1..], order);
      assert a == [a[0]] + a[1..] && b == [b[0]] + b[1..];
    }
  }

  /** Equal streams that start with one byte each start with the same byte. */
  lemma SameHead(order: BitOrder, x: byte, y: byte, s: seq<bool>, t: seq<bool>)
    requires ToBits(order, 8, x) + s == ToBits(order, 8, y) + t
    ensures x == y && s == t
  {
    ConcatCancel(ToBits(order, 8, x), s, ToBits(order, 8, y), t);
    ByteBelow256(x);
    ByteBelow256(y);
    ToBitsInjective(order, 8, x, y);
  }

  lemma ConcatCancel<T>(a: seq<T>, s: seq<T>, b: seq<T>, t: seq<T>)
    requires |a| == |b| && a + s == b + t
    ensures a == b && s == t
  {
    assert a == (a + s)[..|a|] && b == (b + t)[..|a|];
    assert s == (a + s)[|a|..] && t == (b + t)[|a|..];
  }

  lemma ByteBelow256(x: byte)
    ensures x < Pow2(8)
  {
    assert Pow2(8) == 256;
  }

  /** Under Lsb0 a byte below a higher value lays out its 8 bits first. */
  lemma LowByteFirst(low: nat, high: nat, v: nat, m: nat)
    requires low < 256 && v == low + 256 * high
    ensures ToBits(Lsb0, 8 + m, v) == ToBits(Lsb0, 8, low) + ToBits(Lsb0, m, high)
  {
    assert Pow2(8) == 256;
    ConcatLsb0(8, m, low, high, v);
  }

  /** Under Msb0 a byte below a higher value lays out its 8 bits last. */
  lemma LowByteLast(high: nat, low: nat, v: nat, m: nat)
    requires low < 256 && v == 256 * high + low
    ensures ToBits(Msb0, m + 8, v) == ToBits(Msb0, m, high) + ToBits(Msb0, 8, low)
  {
    assert Pow2(8) == 256;
    ConcatMsb0(m, 8, high, low, v);
  }

  /** Under Lsb0 the stream of a run is the pattern of its little-endian value. */
  lemma {:induction false} StreamOfLittleEndian(bs: seq<byte>)
    ensures ToBits(Lsb0, 8 * |bs|, LittleEndian(bs)) == Stream(bs, Lsb0)
  {
    if bs != [] {
      var low, high := bs[0], LittleEndian(bs[1..]);
      StreamOfLittleEndian(bs[1..]);
      LowByteFirst(low, high, LittleEndian(bs), 8 * (|bs| - 1));
    }
  }

  /** Under Msb0 the stream of a run is the pattern of its big-endian value. */
  lemma {:induction false} StreamOfBigEndian(bs: seq<byte>)
    ensures ToBits(Msb0, 8 * |bs|, BigEndian(bs)) == Stream(bs, Msb0)
  {
    if bs != [] {
      var n := |bs|;
      var init, low := bs[..n - 1], bs[n - 1];
      var high := BigEndian(init);
      StreamOfBigEndian(init);
      LowByteLast(high, low, BigEndian(bs), 8 * (n - 1));
      assert Stream(bs, Msb0) == Stream(init, Msb0) + ToBits(Msb0, 8, low) by {
        LastSplit(bs);
        StreamAppend(init, [low], Msb0);
        StreamOfByte(low, Msb0);
      }
    }
  }

  /** The word `Read` returns carries, in read order, the bits of the bytes it consumed. */
  lemma StreamOfRead(order: BitOrder, source: seq<byte>)
    ensures var r := Read(order, source);
      ToBits(order, 8 * r.consumed, r.value) == Stream(source[..r.consumed], order)
  {
    var r := Read(order, source);
    if order == Lsb0 {
      StreamOfLittleEndian(source[..r.consumed]);
    } else {
      StreamOfBigEndian(source[..r.consumed]);
    }
  }

  /** The word `Read` returns is the value of the stream bits of the bytes it consumed. */
  lemma ReadField(order: BitOrder, source: seq<byte>)
    ensures var r := Read(order, source);
      r.value == FieldValue(order, Stream(source[..r.consumed], order))
  {
    var r := Read(order, source);
    StreamOfRead(order, source);
    FieldValueOfSmall(order, 8 * r.consumed, r.value);
  }

  /** The bytes `Write` produces carry the low 8c bits of the word in read order. */
  lemma StreamOfWrite(order: BitOrder, value: uint32, c: nat)
    requires c <= 4
    ensures Stream(Write(order, value, c), order) == ToBits(order, 8 * c, value)
  {
    var w := Write(order, value, c);
    ToBitsLowBits(order, 8 * c, value);
    if order == Lsb0 {
      StreamOfLittleEndian(w);
    } else {
      StreamOfBigEndian(w);
    }
  }

  // ---------------------------------------------------------------------------
  // Slices of a stream

  lemma AppendAssoc<T>(a: seq<T>, b: seq<T>, c: seq<T>)
    ensures (a + b) + c == a + (b + c)
  {
  }

  /** A non-empty sequence is its prefix followed by its last element. */
  lemma LastSplit<T>(s: seq<T>)
    requires s != []
    ensures s == s[..|s| - 1] + [s[|s| - 1]]
  {
  }

  /** Two adjacent slices make one. */
  lemma SliceJoin<T>(s: seq<T>, i: nat, j: nat, k: nat)
    requires i <= j <= k <= |s|
    ensures s[i..j] + s[j..k] == s[i..k]
  {
  }

  /** A slice equal to a concatenation splits at the length of the first part. */
  lemma SliceSplit<T>(s: seq<T>, i: nat, k: nat, x: seq<T>, y: seq<T>)
    requires i <= k <= |s| && x + y == s[i..k]
    ensures i + |x| <= k
    ensures x == s[i..i + |x|] && y == s[i + |x|..k]
  {
    assert x == (x + y)[..|x|] && y == (x + y)[|x|..];
  }
}
