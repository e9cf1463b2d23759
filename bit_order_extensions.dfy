/**
 * The per-order codec shared by reader, writer and view
 * (src/Bite/BitOrderExtensions.cs): `Read` turns up to four bytes into a
 * right-aligned word, `Write` turns a word back into bytes, `GetBit` tests one
 * bit of a byte. `GetBitMask` is the mask the view uses for the same bit.
 */
module BitOrderExtensions {
  import opened Machine
  import opened Order
  import opened BitFields
  import opened Endian

  /**
   * `GetBit`: is bit `position` of `value` set, counting from 0x80 down under
   * Msb0 and from 0x01 up under Lsb0. It tests `value & mask` with the mask
   * `GetBitMask` gives.
   */
  function GetBit(order: BitOrder, value: byte, position: nat): (r: bool)
    requires position < 8
    ensures r == ((value / Pow2(Place(order, position))) % 2 == 1)
  {
    AndPow2(value, Place(order, position));
    And(value, GetBitMask(order, position)) != 0
  }

  /** The place value, as a power of two, of bit `position` of a byte. */
  function Place(order: BitOrder, position: nat): nat
    requires position < 8
  {
    if order == Msb0 then 7 - position else position
  }

  /**
   * `GetBitMask`: `0x80 >> position` under Msb0 and `0x01 << position` under
   * Lsb0; the byte whose only set bit is bit `position`.
   */
  function GetBitMask(order: BitOrder, position: nat): (r: byte)
    requires position < 8
    ensures r == Pow2(Place(order, position))
  {
    MaskIsPow2(order, position);
    if order == Msb0 then Shr(0x80, position) else Shl64(0x01, position)
  }

  lemma MaskIsPow2(order: BitOrder, position: nat)
    requires position < 8
    ensures Shr(0x80, position) == Pow2(7 - position) && Shl64(0x01, position) == Pow2(position)
    ensures Pow2(Place(order, position)) < 256
  {
    assert Pow2(7) == 0x80;
    ShrIsDiv(0x80, position);
    Pow2Add(7 - position, position);
    DivModOfMulAdd(Pow2(7 - position), Pow2(position), 0);
    Shl64NoWrap(0x01, position, 1);
    Pow2Monotone(Place(order, position), 7);
  }

  /** The word `Read` returns and how many bytes it took. */
  datatype ReadResult = ReadResult(value: uint32, consumed: nat)

  /**
   * `Read`: the first min(|source|, 4) bytes as a word. Short runs are padded
   * with zero bytes, on the right under Lsb0 and on the left under Msb0, and
   * read little-endian; under Msb0 the word is then byte-reversed. So the word
   * is always right-aligned: little-endian under Lsb0, big-endian under Msb0.
   */
  function Read(order: BitOrder, source: seq<byte>): (r: ReadResult)
    ensures r.consumed == if |source| < 4 then |source| else 4
    ensures r.value < Pow2(8 * r.consumed)
    ensures order == Lsb0 ==> r.value == LittleEndian(source[..r.consumed])
    ensures order == Msb0 ==> r.value == BigEndian(source[..r.consumed])
  {
    var consumed := if |source| < 4 then |source| else 4;
    var padded :=
      if consumed == 4 then source[..4]
      else if order == Msb0 then Zeros(4 - consumed) + source
      else source + Zeros(4 - consumed);
    ReadMeaning(order, source, consumed, padded);
    var word := LittleEndian(padded);
    ReadResult(if order == Msb0 then ReverseEndianness(word) else word, consumed)
  }

  lemma ReadMeaning(order: BitOrder, source: seq<byte>, consumed: nat, padded: seq<byte>)
    requires consumed == if |source| < 4 then |source| else 4
    requires padded ==
      if consumed == 4 then source[..4]
      else if order == Msb0 then Zeros(4 - consumed) + source
      else source + Zeros(4 - consumed)
    ensures LittleEndian(padded) < UINT32_LIMIT
    ensures order == Lsb0 ==> LittleEndian(padded) == LittleEndian(source[..consumed])
    ensures order == Msb0 ==> ReverseEndianness(LittleEndian(padded)) == BigEndian(source[..consumed])
  {
    assert LittleEndian(padded) < UINT32_LIMIT by {
      Pow2Values();
    }
    var s := source[..consumed];
    if consumed < 4 {
      assert s == source;
    }
    if order == Lsb0 {
      if consumed < 4 {
        PaddedRight(s, 4 - consumed);
      }
    } else {
      ReverseEndiannessOfWord(padded);
      LittleEndianOfReverse(s);
      if consumed < 4 {
        PaddedLeftReversed(s, 4 - consumed);
      }
    }
  }

  /** Zero bytes after a run do not change its little-endian value. */
  lemma PaddedRight(s: seq<byte>, n: nat)
    ensures LittleEndian(s + Zeros(n)) == LittleEndian(s)
  {
    LittleEndianAppend(s, Zeros(n));
    LittleEndianOfZeros(n);
  }

  /** Zero bytes before a run, once reversed, do not change its value. */
  lemma PaddedLeftReversed(s: seq<byte>, n: nat)
    ensures LittleEndian(Reverse(Zeros(n) + s)) == LittleEndian(Reverse(s))
  {
    ReverseAppend(Zeros(n), s);
    assert Reverse(Zeros(n)) == Zeros(n);
    PaddedRight(Reverse(s), n);
  }

  /**
   * `Write`: the low `byteCount` bytes of `value`, little-endian under Lsb0 and
   * big-endian under Msb0 (where the word is byte-reversed and its last
   * `byteCount` bytes are taken). Higher bytes of `value` are dropped.
   */
  function Write(order: BitOrder, value: uint32, byteCount: nat): (r: seq<byte>)
    requires byteCount <= 4
    ensures |r| == byteCount
    ensures order == Lsb0 ==> LittleEndian(r) == value % Pow2(8 * byteCount)
    ensures order == Msb0 ==> BigEndian(r) == value % Pow2(8 * byteCount)
  {
    var word := if order == Msb0 then ReverseEndianness(value) else value;
    var bytes := LeBytes(word, 4);
    WriteMeaning(order, value, byteCount);
    if order == Msb0 then bytes[4 - byteCount..] else bytes[..byteCount]
  }

  lemma WriteMeaning(order: BitOrder, value: uint32, byteCount: nat)
    requires byteCount <= 4
    ensures order == Lsb0 ==> LittleEndian(LeBytes(value, 4)[..byteCount]) == value % Pow2(8 * byteCount)
    ensures order == Msb0 ==> BigEndian(LeBytes(ReverseEndianness(value), 4)[4 - byteCount..]) == value % Pow2(8 * byteCount)
  {
    var low := LeBytes(value, byteCount);
    LeBytesPrefix(value, 4, byteCount);
    LittleEndianOfLeBytes(value, byteCount);
    if order == Msb0 {
      var bytes := LeBytes(ReverseEndianness(value), 4);
      assert bytes[4 - byteCount..] == Reverse(low);
      BigEndianOfReverse(low);
    }
  }

  // ---------------------------------------------------------------------------
  // Properties

  /** Reading back the bytes of `Write(value, c)` takes all c of them and gives value mod 2^(8c). */
  lemma ReadOfWrite(order: BitOrder, value: uint32, c: nat)
    requires c <= 4
    ensures var r := Read(order, Write(order, value, c));
      r.consumed == c && r.value == value % Pow2(8 * c)
  {
    var w := Write(order, value, c);
    assert w[..c] == w;
  }

  /** Writing back the word read from at most four bytes reproduces them. */
  lemma WriteOfRead(order: BitOrder, source: seq<byte>)
    requires |source| <= 4
    ensures Write(order, Read(order, source).value, |source|) == source
  {
    var r := Read(order, source);
    var w := Write(order, r.value, |source|);
    assert source[..|source|] == source;
    LowBitsOfSmall(r.value, 8 * |source|);
    if order == Lsb0 {
      LittleEndianInjective(w, source);
    } else {
      BigEndianInjective(w, source);
    }
  }

  /** `Read` looks at no byte beyond index 3. */
  lemma ReadIgnoresTail(order: BitOrder, source: seq<byte>, rest: seq<byte>)
    requires |source| >= 4
    ensures Read(order, source + rest) == Read(order, source)
  {
    assert (source + rest)[..4] == source[..4];
  }

  /** Position p from the top under Msb0 is position 7 - p from the bottom under Lsb0. */
  lemma GetBitMirror(b: byte, p: nat)
    requires p < 8
    ensures GetBit(Msb0, b, p) == GetBit(Lsb0, b, 7 - p)
  {
  }

  /**
   * `GetBit` tests the bit at place `position` of the byte's read-order
   * pattern: the bit of weight 2^position under Lsb0, 2^(7-position) under Msb0.
   */
  lemma GetBitMeaning(order: BitOrder, value: byte, position: nat)
    requires position < 8
    ensures GetBit(order, value, position) == ToBits(order, 8, value)[position]
  {
    if order == Msb0 {
      ToBitsMsb0At(8, value, position);
    } else {
      ToBitsLsb0At(8, value, position);
    }
  }

  /** The mask of bit `position` has no bit set but that one. */
  lemma GetBitMaskOneHot(order: BitOrder, position: nat, q: nat)
    requires position < 8 && q < 8
    ensures GetBit(order, GetBitMask(order, position), q) == (q == position)
  {
    var w, v := Place(order, position), Place(order, q);
    Pow2Digit(w, v);
  }
}
