/**
 * src/Bite/BitView.cs: a list of bits over a byte buffer, read and written in
 * place. Bit `index` of the view is bit `index & 7` (in the view's bit order)
 * of byte `index >> 3`, so the view's bits are exactly the bit stream of its
 * bytes; the indexer, `Count`, `ToArray` and the enumerator are all specified
 * against `Stream(bytes[..], order)`.
 *
 * The view is a struct over a `Memory<byte>`: copies of it share the bytes, and
 * the setter writes through to them. The model is a class whose `bytes` is a
 * shared array and whose setter modifies that array.
 */
module View {
  import opened Machine
  import opened Order
  import opened BitFields
  import opened BitOrderExtensions
  import opened BitStream

  class BitView {
    /** `_bytes`: the memory the view reads and writes. */
    const bytes: array<byte>
    /** `BitOrder` */
    const order: BitOrder

    /** `new BitView(bytes, bitOrder)` over a byte buffer. */
    constructor (bytes: array<byte>, bitOrder: BitOrder)
      ensures this.bytes == bytes && order == bitOrder
    {
      this.bytes := bytes;
      order := bitOrder;
    }

    /** The bits the view presents. */
    function Bits(): seq<bool>
      reads bytes
    {
      Stream(bytes[..], order)
    }

    /** `Count`: eight bits per byte, every bit of the view. */
    function Count(): (r: nat)
      reads bytes
      ensures r == |Bits()|
    {
      8 * bytes.Length
    }

    /** The indexer's getter: bit `index & 7` of byte `index >> 3`. */
    function Get(index: nat): (r: bool)
      reads bytes
      requires index < Count()
      ensures r == Bits()[index]
    {
      IndexSplit(index);
      StreamAt(bytes[..], order, index);
      And(bytes[Shr(index, 3)], GetBitMask(order, And(index, 7))) != 0
    }

    /**
     * The indexer's setter: `|= mask` sets the bit, `&= (byte)~mask` clears
     * it. Exactly bit `index` of the view changes, and only byte `index >> 3`
     * of the memory is written.
     */
    method Set(index: nat, value: bool)
      requires index < Count()
      modifies bytes
      ensures Bits() == old(Bits())[index := value]
      ensures forall k :: 0 <= k < bytes.Length && k != index / 8 ==> bytes[k] == old(bytes[k])
    {
      IndexSplit(index);
      var at, position := Shr(index, 3), And(index, 7);
      var mask := GetBitMask(order, position);
      var b := bytes[at];
      var updated: byte;
      if value {
        SetBitOfByte(order, b, position);
        updated := Or(b, mask);
      } else {
        ClearBitOfByte(order, b, position);
        updated := And(b, ByteComplement(mask));
      }
      ghost var before := bytes[..];
      bytes[at] := updated;
      assert bytes[..] == before[at := updated];
      UpdateStream(before, order, index, updated, value);
    }

    /** `GetEnumerator` on a byte view: a fresh `MemoryEnumerator` at the start. */
    method GetEnumerator() returns (e: MemoryEnumerator)
      ensures fresh(e) && e.bytes == bytes && e.order == order
      ensures e.Valid() && e.Yielded() == 0
    {
      e := new MemoryEnumerator(bytes, order);
    }

    /**
     * `ToArray`: `Count` flags, filled by a `foreach` over the view's own
     * enumerator; they are the view's bits in order.
     */
    method ToArray() returns (bits: array<bool>)
      ensures fresh(bits) && bits[..] == Bits()
    {
      bits := new bool[Count()](_ => false);
      var index := 0;
      var e := GetEnumerator();
      while true
        invariant fresh(e) && e.bytes == bytes && e.order == order && e.Valid()
        invariant index == e.Yielded() <= bits.Length
        invariant forall k :: 0 <= k < index ==> bits[k] == Bits()[k]
        decreases bits.Length - index
      {
        var more := Yield(e, bits, index);
        if !more {
          break;
        }
        index := index + 1;
      }
      assert bits[..] == Bits();
    }
  }

  /** One turn of the `foreach` in `ToArray`: the next bit, if there is one, goes to entry `index`. */
  method Yield(e: MemoryEnumerator, bits: array<bool>, index: nat) returns (more: bool)
    requires e.Valid() && index == e.Yielded() && bits.Length == 8 * e.bytes.Length
    modifies e, bits
    ensures e.Valid()
    ensures more == (index < bits.Length)
    ensures more ==> e.Yielded() == index + 1 && bits[index] == Stream(e.bytes[..], e.order)[index]
    ensures !more ==> e.Yielded() == index
    ensures forall k :: 0 <= k < bits.Length && k != index ==> bits[k] == old(bits[k])
  {
    more := e.MoveNext();
    if more {
      bits[index] := e.Current();
    }
  }

  /**
   * `MemoryEnumerator`: walks the bytes one at a time and a one-bit mask
   * through each byte in read order. `mask == 0` means no byte is loaded (at
   * the start, and once the mask has been shifted past the byte's last bit).
   */
  class MemoryEnumerator {
    const bytes: array<byte>
    const order: BitOrder
    /** `_currentByte` */
    var currentByte: byte
    /** `_position`: the number of bytes loaded. */
    var position: nat
    /** `_mask` */
    var mask: byte
    /** Which bit of `currentByte`, in read order, `mask` selects. */
    ghost var offset: nat

    ghost predicate Valid()
      reads this, bytes
    {
      position <= bytes.Length && offset < 8 &&
      (mask != 0 ==> 1 <= position && currentByte == bytes[position - 1] && mask == GetBitMask(order, offset))
    }

    /** The number of bits yielded so far. */
    ghost function Yielded(): nat
      reads this
    {
      if mask == 0 || position == 0 then 8 * position else 8 * (position - 1) + offset + 1
    }

    constructor (bytes: array<byte>, bitOrder: BitOrder)
      ensures this.bytes == bytes && order == bitOrder
      ensures currentByte == 0 && position == 0 && mask == 0
      ensures Valid() && Yielded() == 0
    {
      this.bytes := bytes;
      order := bitOrder;
      currentByte, position, mask := 0, 0, 0;
      offset := 0;
    }

    /** `Current`: the bit last yielded, or false before the first `MoveNext`. */
    function Current(): (r: bool)
      reads this, bytes
      ensures mask == 0 ==> !r
      ensures Valid() && mask != 0 ==> r == Stream(bytes[..], order)[Yielded() - 1]
    {
      LoadedBit(bytes[..], order, position, currentByte, offset);
      And(currentByte, mask) != 0
    }

    /**
     * `MoveNext`: shift the mask to the next bit; once it has left the byte,
     * load the next byte, if there is one, and start again at its bit 0. It
     * yields one more bit exactly while fewer than `8 * bytes.Length` have
     * been yielded, and then keeps answering false.
     */
    method MoveNext() returns (more: bool)
      requires Valid()
      modifies this
      ensures Valid()
      ensures more == (old(Yielded()) < 8 * bytes.Length)
      ensures more ==> mask != 0 && Yielded() == old(Yielded()) + 1
      ensures !more ==> mask == 0 && Yielded() == old(Yielded())
    {
      var was := mask;
      if was != 0 {
        MaskStep(order, offset);
      }
      mask := ShiftMask(order, mask);
      if mask != 0 {
        offset := offset + 1;
      }
      if mask == 0 {
        if position == bytes.Length {
          return false;
        }
        currentByte := bytes[position];
        position := position + 1;
        FirstMask(order);
        if order == Msb0 {
          mask := 0x80;
        } else {
          mask := 0x01;
        }
        offset := 0;
      }
      return true;
    }

    /** `Reset`: back to the start, nothing loaded. */
    method Reset()
      modifies this
      ensures currentByte == 0 && position == 0 && mask == 0
      ensures Valid() && Yielded() == 0
    {
      position, currentByte, mask := 0, 0, 0;
      offset := 0;
    }
  }

  /** `(byte)~m`: the low eight bits of the complement of a byte. */
  function ByteComplement(m: byte): (r: byte)
    ensures r + m == 255
  {
    255 - m
  }

  /**
   * `_mask >>= 1` under Msb0 and `_mask <<= 1` under Lsb0: the byte is widened
   * to `int`, shifted, and truncated back to a byte on assignment.
   */
  function ShiftMask(order: BitOrder, mask: byte): (r: byte)
    ensures !GetBit(order, r, 0)
    ensures forall q :: 0 <= q < 7 ==> GetBit(order, r, q + 1) == GetBit(order, mask, q)
  {
    var shifted := if order == Msb0 then mask / 2 else (2 * mask) % 256;
    ShiftedMask(order, mask, shifted);
    shifted
  }

  /** The shifted byte holds each bit of the mask one place later in read order. */
  lemma ShiftedMask(order: BitOrder, mask: byte, r: byte)
    requires r == if order == Msb0 then mask / 2 else (2 * mask) % 256
    ensures !GetBit(order, r, 0)
    ensures forall q :: 0 <= q < 7 ==> GetBit(order, r, q + 1) == GetBit(order, mask, q)
  {
    ShiftedFirst(order, mask, r);
    forall q | 0 <= q < 7
      ensures GetBit(order, r, q + 1) == GetBit(order, mask, q)
    {
      ShiftedDigit(order, mask, r, q);
    }
  }

  lemma ShiftedFirst(order: BitOrder, mask: byte, r: byte)
    requires r == if order == Msb0 then mask / 2 else (2 * mask) % 256
    ensures (r / Pow2(Place(order, 0))) % 2 == 0
  {
    if order == Msb0 {
      assert Pow2(7) == 128;
      assert r < 128;
    } else {
      var k := (2 * mask) / 256;
      assert 2 * mask == 256 * k + r;
      assert r == 2 * (mask - 128 * k);
    }
  }

  lemma ShiftedDigit(order: BitOrder, mask: byte, r: byte, q: nat)
    requires r == if order == Msb0 then mask / 2 else (2 * mask) % 256
    requires q < 7
    ensures (r / Pow2(Place(order, q + 1))) % 2 == (mask / Pow2(Place(order, q))) % 2
  {
    if order == Msb0 {
      DivDiv(mask, 2, Pow2(6 - q));
    } else {
      Lsb0ShiftedDigit(mask, r, q, Pow2(q), Pow2(6 - q));
    }
  }

  /** Under Lsb0 bit q + 1 of `(2 * mask) % 256` is bit q of the mask, with a = 2^q and b = 2^(6-q). */
  lemma Lsb0ShiftedDigit(mask: byte, r: byte, q: nat, a: nat, b: nat)
    requires r == (2 * mask) % 256 && q < 7
    requires a == Pow2(q) && b == Pow2(6 - q)
    ensures (r / Pow2(q + 1)) % 2 == (mask / a) % 2
  {
    assert Pow2(q + 1) == 2 * a;
    assert (2 * a) * (2 * b) == 256 by {
      Pow2Add(q + 1, 7 - q);
      Pow2Values();
    }
    var y := 2 * mask / (2 * a);
    DivDiv(2 * mask, 2 * a, 2 * b);
    assert r / (2 * a) == y % (2 * b);
    DivDiv(y, 2, b);
    DivDiv(2 * mask, 2, a);
  }

  /** `index & 7` is the bit of the byte and `index >> 3` the byte of a view index. */
  lemma IndexSplit(index: nat)
    ensures And(index, 7) == index % 8 && Shr(index, 3) == index / 8
  {
    assert Pow2(3) == 8;
    AndLowMask(index, 3);
    ShrIsDiv(index, 3);
  }

  /**
   * The mask moves to the next bit of the byte in read order, and becomes
   * zero after the eighth: `0x01 >> 1` under Msb0, and `0x80 << 1` truncated
   * to a byte under Lsb0.
   */
  lemma MaskStep(order: BitOrder, offset: nat)
    requires offset < 8
    ensures ShiftMask(order, GetBitMask(order, offset)) == if offset < 7 then GetBitMask(order, offset + 1) else 0
  {
    var m := GetBitMask(order, offset);
    if order == Msb0 {
      if offset < 7 {
        assert m == 2 * Pow2(6 - offset);
      }
    } else if offset < 7 {
      MaskIsPow2(order, offset + 1);
    } else {
      assert offset == 7 && Pow2(7) == 128;
      assert m == 128;
    }
  }

  /** A freshly loaded byte starts at its bit 0: mask 0x80 under Msb0, 0x01 under Lsb0. */
  lemma FirstMask(order: BitOrder)
    ensures GetBitMask(order, 0) == if order == Msb0 then 0x80 else 0x01
  {
    assert Pow2(7) == 0x80;
  }

  /** Bit `offset` of byte `position - 1` is stream bit `8 * (position - 1) + offset`. */
  lemma LoadedBit(bytes: seq<byte>, order: BitOrder, position: nat, current: byte, offset: nat)
    ensures 1 <= position <= |bytes| && current == bytes[position - 1] && offset < 8 ==>
      Stream(bytes, order)[8 * (position - 1) + offset] == GetBit(order, current, offset)
  {
    if 1 <= position <= |bytes| && current == bytes[position - 1] && offset < 8 {
      var i := 8 * (position - 1) + offset;
      DivModOfMulAdd(position - 1, 8, offset);
      StreamAt(bytes, order, i);
    }
  }

  /** `b | mask` sets bit `position` of the byte and keeps the others. */
  lemma SetBitOfByte(order: BitOrder, b: byte, position: nat)
    requires position < 8
    ensures Or(b, GetBitMask(order, position)) < 256
    ensures forall q :: 0 <= q < 8 ==>
      GetBit(order, Or(b, GetBitMask(order, position)), q) == (q == position || GetBit(order, b, q))
  {
    var m := GetBitMask(order, position);
    var w := Place(order, position);
    assert Pow2(8) == 256;
    OrBound(b, m, 8);
    var o: byte := Or(b, m);
    forall q | 0 <= q < 8
      ensures GetBit(order, o, q) == (q == position || GetBit(order, b, q))
    {
      var v := Place(order, q);
      AndPow2(o, v);
      AndPow2(b, v);
      OrDigit(b, m, v);
      Pow2Digit(w, v);
    }
  }

  /** `b & (byte)~mask` clears bit `position` of the byte and keeps the others. */
  lemma ClearBitOfByte(order: BitOrder, b: byte, position: nat)
    requires position < 8
    ensures And(b, ByteComplement(GetBitMask(order, position))) < 256
    ensures forall q :: 0 <= q < 8 ==>
      GetBit(order, And(b, ByteComplement(GetBitMask(order, position))), q) == (q != position && GetBit(order, b, q))
  {
    var m := GetBitMask(order, position);
    var c := ByteComplement(m);
    var w := Place(order, position);
    assert Pow2(8) == 256;
    AndBelow(b, c);
    var a: byte := And(b, c);
    forall q | 0 <= q < 8
      ensures GetBit(order, a, q) == (q != position && GetBit(order, b, q))
    {
      var v := Place(order, q);
      AndPow2(a, v);
      AndPow2(b, v);
      AndDigit(b, c, v);
      ComplementDigit(8, m, c, v);
      Pow2Digit(w, v);
    }
  }

  /**
   * Replacing byte `index / 8` by one that differs from it in bit `index % 8`
   * alone, and holds `value` there, changes exactly bit `index` of the stream.
   */
  lemma UpdateStream(bytes: seq<byte>, order: BitOrder, index: nat, b: byte, value: bool)
    requires index < 8 * |bytes|
    requires forall q :: 0 <= q < 8 ==>
      GetBit(order, b, q) == if q == index % 8 then value else GetBit(order, bytes[index / 8], q)
    ensures Stream(bytes[index / 8 := b], order) == Stream(bytes, order)[index := value]
  {
    var after := bytes[index / 8 := b];
    forall i | 0 <= i < 8 * |bytes|
      ensures Stream(after, order)[i] == Stream(bytes, order)[index := value][i]
    {
      StreamAt(after, order, i);
      StreamAt(bytes, order, i);
    }
  }

  /** A two-byte stream is the first byte's bits followed by the second's. */
  lemma TwoBytes(a: byte, b: byte, order: BitOrder)
    ensures Stream([a, b], order) == ByteBits(a, order) + ByteBits(b, order)
  {
    assert [a, b][1..] == [b];
    assert Stream([b], order) == ByteBits(b, order) + Stream([], order);
  }

  /** The bytes of the view tests, one at a time: 0x03 under Lsb0, */
  lemma Lsb0Byte03()
    ensures ToBits(Lsb0, 8, 0x03) == [true, true, false, false, false, false, false, false]
  {
  }

  /** 0x81 under Lsb0, */
  lemma Lsb0Byte81()
    ensures ToBits(Lsb0, 8, 0x81) == [true, false, false, false, false, false, false, true]
  {
  }

  /** 0xC0 under Msb0 */
  lemma Msb0ByteC0()
    ensures ToBits(Msb0, 8, 0xC0) == [true, true, false, false, false, false, false, false]
  {
  }

  /** and 0x81 under Msb0. */
  lemma Msb0Byte81()
    ensures ToBits(Msb0, 8, 0x81) == [true, false, false, false, false, false, false, true]
  {
  }

  /**
   * The byte views of the view tests: under Lsb0 the bytes 0x03 0x81 and
   * under Msb0 the bytes 0xC0 0x81 both present the bits 1100000010000001.
   */
  lemma ViewExamples(lsb: seq<byte>, msb: seq<byte>)
    requires lsb == [0x03, 0x81] && msb == [0xC0, 0x81]
    ensures Stream(lsb, Lsb0) == [true, true, false, false, false, false, false, false,
                                  true, false, false, false, false, false, false, true]
    ensures Stream(msb, Msb0) == Stream(lsb, Lsb0)
  {
    TwoBytes(lsb[0], lsb[1], Lsb0);
    TwoBytes(msb[0], msb[1], Msb0);
    Lsb0Byte03();
    Lsb0Byte81();
    Msb0ByteC0();
    Msb0Byte81();
  }
}
